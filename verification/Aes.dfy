/** aes.c: the table-driven block cipher, its key schedule and cipher block chaining. */
module Aes {
  import opened Buffers
  import opened Bytes
  import opened GaloisField
  import opened SubstitutionBox
  import opened Fips197

  const N_BLOCK := 16
  const SCHEDULE_SIZE := 240
  const N_MAX_ROUNDS := 14

  /** The value -1 in the one-byte return_type. */
  const FAILED: uint8 := 0xff
  const EXIT_FAILURE: uint8 := 1

  class AesContext {
    const ksch: array<Byte>
    var rnd: uint8

    constructor ()
      ensures fresh(ksch) && ksch.Length == SCHEDULE_SIZE && rnd == 0
      ensures forall i :: 0 <= i < SCHEDULE_SIZE ==> ksch[i] == Byte(0)
    {
      ksch := new Byte[SCHEDULE_SIZE](_ => Byte(0));
      rnd := 0;
    }

    ghost predicate Valid()
      reads this
    {
      ksch.Length == SCHEDULE_SIZE && rnd <= N_MAX_ROUNDS
    }

    /** The part of the schedule that has been filled. */
    ghost function RoundKeys(): (ks: seq<Byte>)
      requires Valid()
      reads this, ksch
      ensures rnd > 0 ==> Fips197.Schedule(ks, rnd)
    {
      ksch[..16 * rnd + 16]
    }

    /** The block cipher that this context computes. */
    ghost function E(b: Block): Block
      requires Valid() && rnd > 0
      reads this, ksch
    {
      Cipher(b, RoundKeys(), rnd)
    }

    /** ... and its inverse. */
    ghost function D(b: Block): Block
      requires Valid() && rnd > 0
      reads this, ksch
    {
      InvCipher(b, RoundKeys(), rnd)
    }
  }

  // ---------- tables ----------

  function Gfm2SBox(x: Byte): Byte { F2(SBox(x)) }
  function Gfm3SBox(x: Byte): Byte { F3(SBox(x)) }

  // ---------- whole-block operations ----------

  method BlockCopy(d: array<Byte>, dAt: nat, s: array<Byte>, sAt: nat, n: nat)
    requires dAt + n <= d.Length && sAt + n <= s.Length
    modifies d
    ensures d[..] == Splice(old(d[..]), dAt, old(s[sAt..sAt + n]))
  {
    forall i | 0 <= i < n {
      d[dAt + i] := s[sAt + i];
    }
  }

  method XorBlock(d: array<Byte>, dAt: nat, s: array<Byte>, sAt: nat)
    requires dAt + N_BLOCK <= d.Length && sAt + N_BLOCK <= s.Length
    modifies d
    ensures d[..] == Splice(old(d[..]), dAt, XorSeq(old(d[dAt..dAt + N_BLOCK]), old(s[sAt..sAt + N_BLOCK])))
  {
    forall i | 0 <= i < N_BLOCK {
      d[dAt + i] := Xor(d[dAt + i], s[sAt + i]);
    }
  }

  method CopyAndKey(d: array<Byte>, dAt: nat, s: array<Byte>, sAt: nat, k: array<Byte>, kAt: nat)
    requires dAt + N_BLOCK <= d.Length && sAt + N_BLOCK <= s.Length && kAt + N_BLOCK <= k.Length
    modifies d
    ensures d[..] == Splice(old(d[..]), dAt, XorSeq(old(s[sAt..sAt + N_BLOCK]), old(k[kAt..kAt + N_BLOCK])))
  {
    forall i | 0 <= i < N_BLOCK {
      d[dAt + i] := Xor(s[sAt + i], k[kAt + i]);
    }
  }

  lemma SpliceWhole(s: seq<Byte>, b: seq<Byte>)
    requires |s| == |b|
    ensures Splice(s, 0, b) == b
  {
  }

  /** The same operations on arrays of exactly one block. */
  method CopyWhole(d: array<Byte>, s: array<Byte>)
    requires d.Length == s.Length == N_BLOCK
    modifies d
    ensures d[..] == old(s[..])
  {
    SpliceWhole(d[..], s[..]);
    BlockCopy(d, 0, s, 0, N_BLOCK);
  }

  method XorWhole(d: array<Byte>, s: array<Byte>)
    requires d.Length == s.Length == N_BLOCK
    modifies d
    ensures d[..] == XorSeq(old(d[..]), old(s[..]))
  {
    hide XorSeq;
    assert d[..] == d[0..N_BLOCK] && s[..] == s[0..N_BLOCK];
    SpliceWhole(d[..], XorSeq(d[..], s[..]));
    XorBlock(d, 0, s, 0);
  }

  // ---------- the fused halves of a round ----------

  /** The S-box or its inverse. */
  function Table(inverse: bool, x: Byte): Byte {
    if inverse then InvSBox(x) else SBox(x)
  }

  /** The first row stays in place. */
  method SubRow(st: array<Byte>, inverse: bool)
    requires st.Length == N_BLOCK
    modifies st
    ensures forall i :: 0 <= i < 16 ==> st[i] == if i in {0, 4, 8, 12} then Table(inverse, old(st[i])) else old(st[i])
  {
    hide Table;
    st[0] := Table(inverse, st[0]);
    st[4] := Table(inverse, st[4]);
    st[8] := Table(inverse, st[8]);
    st[12] := Table(inverse, st[12]);
  }

  /** The second and fourth rows move through one temporary. */
  method CycleRow(st: array<Byte>, inverse: bool, a: nat, b: nat, c: nat, d: nat)
    requires st.Length == N_BLOCK && a < 16 && b < 16 && c < 16 && d < 16
    requires a != b && a != c && a != d && b != c && b != d && c != d
    modifies st
    ensures st[a] == Table(inverse, old(st[b])) && st[b] == Table(inverse, old(st[c]))
    ensures st[c] == Table(inverse, old(st[d])) && st[d] == Table(inverse, old(st[a]))
    ensures forall i :: 0 <= i < 16 && i != a && i != b && i != c && i != d ==> st[i] == old(st[i])
  {
    hide Table;
    var tt := st[a];
    st[a] := Table(inverse, st[b]);
    st[b] := Table(inverse, st[c]);
    st[c] := Table(inverse, st[d]);
    st[d] := Table(inverse, tt);
  }

  /** The third row is two swaps. */
  method SwapPair(st: array<Byte>, inverse: bool, a: nat, b: nat)
    requires st.Length == N_BLOCK && a < 16 && b < 16 && a != b
    modifies st
    ensures st[a] == Table(inverse, old(st[b])) && st[b] == Table(inverse, old(st[a]))
    ensures forall i :: 0 <= i < 16 && i != a && i != b ==> st[i] == old(st[i])
  {
    hide Table;
    var tt := st[a];
    st[a] := Table(inverse, st[b]);
    st[b] := Table(inverse, tt);
  }

  lemma RowsMoved(st: Block, after: Block)
    requires after[0] == Table(false, st[0]) && after[1] == Table(false, st[5]) && after[2] == Table(false, st[10])
             && after[3] == Table(false, st[15])
    requires after[4] == Table(false, st[4]) && after[5] == Table(false, st[9]) && after[6] == Table(false, st[14])
             && after[7] == Table(false, st[3])
    requires after[8] == Table(false, st[8]) && after[9] == Table(false, st[13]) && after[10] == Table(false, st[2])
             && after[11] == Table(false, st[7])
    requires after[12] == Table(false, st[12]) && after[13] == Table(false, st[1]) && after[14] == Table(false, st[6])
             && after[15] == Table(false, st[11])
    ensures after == ShiftRows(SubBytes(st))
  {
    hide SBox;
    SameIsEqual(after, ShiftRows(SubBytes(st)));
  }

  lemma RowsInvMoved(st: Block, after: Block)
    requires after[0] == Table(true, st[0]) && after[1] == Table(true, st[13]) && after[2] == Table(true, st[10])
             && after[3] == Table(true, st[7])
    requires after[4] == Table(true, st[4]) && after[5] == Table(true, st[1]) && after[6] == Table(true, st[14])
             && after[7] == Table(true, st[11])
    requires after[8] == Table(true, st[8]) && after[9] == Table(true, st[5]) && after[10] == Table(true, st[2])
             && after[11] == Table(true, st[15])
    requires after[12] == Table(true, st[12]) && after[13] == Table(true, st[9]) && after[14] == Table(true, st[6])
             && after[15] == Table(true, st[3])
    ensures after == InvSubBytes(InvShiftRows(st))
  {
    hide InvSBox;
    SameIsEqual(after, InvSubBytes(InvShiftRows(st)));
  }

  method ShiftSubRows(st: array<Byte>)
    requires st.Length == N_BLOCK
    modifies st
    ensures st[..] == ShiftRows(SubBytes(old(st[..])))
  {
    hide Table, SubBytes, InvSubBytes, ShiftRows, InvShiftRows;
    ghost var before := st[..];
    SubRow(st, false);
    CycleRow(st, false, 1, 5, 9, 13);
    SwapPair(st, false, 2, 10);
    SwapPair(st, false, 6, 14);
    CycleRow(st, false, 15, 11, 7, 3);
    RowsMoved(before, st[..]);
  }

  method InvShiftSubRows(st: array<Byte>)
    requires st.Length == N_BLOCK
    modifies st
    ensures st[..] == InvSubBytes(InvShiftRows(old(st[..])))
  {
    hide Table, SubBytes, InvSubBytes, ShiftRows, InvShiftRows;
    ghost var before := st[..];
    SubRow(st, true);
    CycleRow(st, true, 13, 9, 5, 1);
    SwapPair(st, true, 2, 10);
    SwapPair(st, true, 6, 14);
    CycleRow(st, true, 3, 7, 11, 15);
    RowsInvMoved(before, st[..]);
  }

  function Quad(a: Byte, b: Byte, c: Byte, d: Byte): Word {
    [a, b, c, d]
  }

  /** Four bytes of mix_sub_columns, in the order in which each sum is written there. */
  function MixSub(a: Byte, b: Byte, c: Byte, d: Byte): Word {
    Quad(Sum4(Gfm2SBox(a), Gfm3SBox(b), SBox(c), SBox(d)),
         Sum4(SBox(a), Gfm2SBox(b), Gfm3SBox(c), SBox(d)),
         Sum4(SBox(a), SBox(b), Gfm2SBox(c), Gfm3SBox(d)),
         Sum4(Gfm3SBox(a), SBox(b), SBox(c), Gfm2SBox(d)))
  }

  function SubWord4(a: Byte, b: Byte, c: Byte, d: Byte): Word {
    Quad(SBox(a), SBox(b), SBox(c), SBox(d))
  }

  lemma MixSubMixes(a: Byte, b: Byte, c: Byte, d: Byte)
    ensures MixSub(a, b, c, d) == MixColumn(SubWord4(a, b, c, d))
  {
    hide Sum4, F2, F3, SBox, MixColumn;
    MixColumnRows(SubWord4(a, b, c, d));
    var (p, q, r, s) := (SBox(a), SBox(b), SBox(c), SBox(d));
    Sum4Rotates(p, F2(q), F3(r), s);
    Sum4Rotates(p, q, F2(r), F3(s));
    Sum4Rotates(q, F2(r), F3(s), p);
    Sum4Rotates(F2(s), F3(p), q, r);
  }

  /** ... and of inv_mix_sub_columns. */
  function InvMixSub(a: Byte, b: Byte, c: Byte, d: Byte): Word {
    Quad(InvSBox(Sum4(FE(a), FB(b), FD(c), F9(d))),
         InvSBox(Sum4(F9(a), FE(b), FB(c), FD(d))),
         InvSBox(Sum4(FD(a), F9(b), FE(c), FB(d))),
         InvSBox(Sum4(FB(a), FD(b), F9(c), FE(d))))
  }

  lemma InvMixSubMixes(w: Word)
    ensures var m := InvMixColumn(w);
            InvMixSub(w[0], w[1], w[2], w[3]) == SubWordInv(m)
  {
    hide Sum4, F9, FB, FD, FE, InvSBox, InvMixColumn;
    MixColumnRows(w);
    var (a, b, c, d) := (w[0], w[1], w[2], w[3]);
    Sum4Rotates(F9(a), FE(b), FB(c), FD(d));
    Sum4Rotates(FD(a), F9(b), FE(c), FB(d));
    Sum4Rotates(F9(b), FE(c), FB(d), FD(a));
    Sum4Rotates(FE(d), FB(a), FD(b), F9(c));
  }

  function SubWordInv(w: Word): Word {
    Quad(InvSBox(w[0]), InvSBox(w[1]), InvSBox(w[2]), InvSBox(w[3]))
  }

  method MixSubColumns(dt: array<Byte>)
    requires dt.Length == N_BLOCK
    modifies dt
    ensures dt[..] == MixColumns(ShiftRows(SubBytes(old(dt[..]))))
  {
    hide MixSub, MixColumns, ShiftRows, SubBytes;
    ghost var before := dt[..];
    var st := new Byte[N_BLOCK];
    BlockCopy(st, 0, dt, 0, N_BLOCK);
    assert st[..] == before;
    StoreFour(dt, 0, 1, 2, 3, MixSub(st[0], st[5], st[10], st[15]));
    StoreFour(dt, 4, 5, 6, 7, MixSub(st[4], st[9], st[14], st[3]));
    StoreFour(dt, 8, 9, 10, 11, MixSub(st[8], st[13], st[2], st[7]));
    StoreFour(dt, 12, 13, 14, 15, MixSub(st[12], st[1], st[6], st[11]));
    MixedBlock(before, dt[..]);
  }

  function Store(s: seq<Byte>, i: nat, j: nat, k: nat, l: nat, w: Word): (r: seq<Byte>)
    requires i < |s| && j < |s| && k < |s| && l < |s|
    ensures |r| == |s|
  {
    s[i := w[0]][j := w[1]][k := w[2]][l := w[3]]
  }

  /** Four of the sixteen assignments: the new values of one column. */
  method StoreFour(dt: array<Byte>, i: nat, j: nat, k: nat, l: nat, w: Word)
    requires i < dt.Length && j < dt.Length && k < dt.Length && l < dt.Length
    modifies dt
    ensures dt[..] == Store(old(dt[..]), i, j, k, l, w)
  {
    dt[i] := w[0];
    dt[j] := w[1];
    dt[k] := w[2];
    dt[l] := w[3];
  }

  lemma MixedBlock(st: Block, after: Block)
    requires var (a, b, c, d) :=
             (MixSub(st[0], st[5], st[10], st[15]), MixSub(st[4], st[9], st[14], st[3]),
              MixSub(st[8], st[13], st[2], st[7]), MixSub(st[12], st[1], st[6], st[11]));
             after == Store(Store(Store(Store(st, 0, 1, 2, 3, a), 4, 5, 6, 7, b), 8, 9, 10, 11, c), 12, 13, 14, 15, d)
    ensures after == MixColumns(ShiftRows(SubBytes(st)))
  {
    hide MixSub, MixColumn, SBox;
    MixSubMixes(st[0], st[5], st[10], st[15]);
    MixSubMixes(st[4], st[9], st[14], st[3]);
    MixSubMixes(st[8], st[13], st[2], st[7]);
    MixSubMixes(st[12], st[1], st[6], st[11]);
    var t := ShiftRows(SubBytes(st));
    assert t[0..4] == SubWord4(st[0], st[5], st[10], st[15]);
    assert t[4..8] == SubWord4(st[4], st[9], st[14], st[3]);
    assert t[8..12] == SubWord4(st[8], st[13], st[2], st[7]);
    assert t[12..16] == SubWord4(st[12], st[1], st[6], st[11]);
    ColumnsOf(MixColumn(t[0..4]), MixColumn(t[4..8]), MixColumn(t[8..12]), MixColumn(t[12..16]));
    SameIsEqual(after, MixColumns(t));
  }

  method InvMixSubColumns(dt: array<Byte>)
    requires dt.Length == N_BLOCK
    modifies dt
    ensures dt[..] == InvSubBytes(InvShiftRows(InvMixColumns(old(dt[..]))))
  {
    hide InvMixSub, InvMixColumns, InvShiftRows, InvSubBytes;
    ghost var before := dt[..];
    var st := new Byte[N_BLOCK];
    BlockCopy(st, 0, dt, 0, N_BLOCK);
    assert st[..] == before;
    StoreFour(dt, 0, 5, 10, 15, InvMixSub(st[0], st[1], st[2], st[3]));
    StoreFour(dt, 4, 9, 14, 3, InvMixSub(st[4], st[5], st[6], st[7]));
    StoreFour(dt, 8, 13, 2, 7, InvMixSub(st[8], st[9], st[10], st[11]));
    StoreFour(dt, 12, 1, 6, 11, InvMixSub(st[12], st[13], st[14], st[15]));
    InvMixedBlock(before, dt[..]);
  }

  lemma InvMixedBlock(st: Block, after: Block)
    requires var (a, b, c, d) :=
             (InvMixSub(st[0], st[1], st[2], st[3]), InvMixSub(st[4], st[5], st[6], st[7]),
              InvMixSub(st[8], st[9], st[10], st[11]), InvMixSub(st[12], st[13], st[14], st[15]));
             after == Store(Store(Store(Store(st, 0, 5, 10, 15, a), 4, 9, 14, 3, b), 8, 13, 2, 7, c), 12, 1, 6, 11, d)
    ensures after == InvSubBytes(InvShiftRows(InvMixColumns(st)))
  {
    hide InvMixSub, InvMixColumn, InvSBox;
    var (a, b, c, d) := (st[0..4], st[4..8], st[8..12], st[12..16]);
    InvMixSubMixes(a);
    InvMixSubMixes(b);
    InvMixSubMixes(c);
    InvMixSubMixes(d);
    ColumnsOf(InvMixColumn(a), InvMixColumn(b), InvMixColumn(c), InvMixColumn(d));
    SameIsEqual(after, InvSubBytes(InvShiftRows(InvMixColumns(st))));
  }

  // ---------- the key schedule ----------

  /** One step of the loop: the word that goes at byte `cc`, by the source's byte arithmetic. */
  function NextTemp(t0: Byte, t1: Byte, t2: Byte, t3: Byte, rc: Byte, keylen: uint8, cc: uint8): Word
    requires KeyLength(keylen)
  {
    if cc % keylen == 0 then Quad(Xor(SBox(t1), rc), SBox(t2), SBox(t3), SBox(t0))
    else if keylen > 24 && cc % keylen == 16 then Quad(SBox(t0), SBox(t1), SBox(t2), SBox(t3))
    else Quad(t0, t1, t2, t3)
  }

  /** The byte positions of the loop are four times the word positions of section 5.2. */
  lemma WordPositions(keylen: nat, cc: nat, round: nat)
    requires KeyLength(keylen) && keylen <= cc < 240 && cc % 4 == 0
    requires round >= 1 && keylen * (round - 1) < cc <= keylen * round
    ensures (cc % keylen == 0 <==> cc / 4 % (keylen / 4) == 0)
            && (cc % keylen == 0 ==> cc == keylen * round && cc / 4 / (keylen / 4) == round)
    ensures keylen > 24 ==> (cc % keylen == 16 <==> cc / 4 % (keylen / 4) == 4)
  {
    var (nk, i, m) := (keylen / 4, cc / 4, cc - keylen * (round - 1));
    assert 4 * nk == keylen && 4 * i == cc && 4 * (m / 4) == m && i == nk * (round - 1) + m / 4;
    if m == keylen {
      DivMod(cc, keylen, round, 0);
      DivMod(i, nk, round, 0);
    } else {
      DivMod(cc, keylen, round - 1, m);
      DivMod(i, nk, round - 1, m / 4);
    }
  }

  lemma DivMod(a: nat, b: nat, q: nat, r: nat)
    requires r < b && a == b * q + r
    ensures a / b == q && a % b == r
  {
    var (x, y) := (a / b, a % b);
    assert b * (q - x) == y - r;
    if q > x {
      MulAtLeast(b, q - x);
    } else if q < x {
      MulAtLeast(b, x - q);
    }
  }

  lemma MulAtLeast(b: nat, k: nat)
    requires k >= 1
    ensures b * k >= b
  {
  }

  lemma NextTempIsTemp(q: Word, keylen: uint8, cc: uint8, round: nat)
    requires KeyLength(keylen) && keylen <= cc < 240 && cc % 4 == 0
    requires round >= 1 && keylen * (round - 1) < cc <= keylen * round
    ensures NextTemp(q[0], q[1], q[2], q[3], Rcon(round), keylen, cc) == Temp(q, keylen / 4, cc / 4)
  {
    hide SBox, Rcon, Xor;
    WordPositions(keylen, cc, round);
    assert q == Quad(q[0], q[1], q[2], q[3]);
  }

  /** The word computed by the loop body is the next word of the key expansion. */
  lemma NextKeyWord(key: seq<Byte>, cc: uint8, round: nat, rc: Byte)
    requires KeyLength(|key|) && |key| <= cc < 240 && cc % 4 == 0
    requires round >= 1 && |key| * (round - 1) < cc <= |key| * round && rc == Rcon(round)
    ensures var (p, q) := (KeyWord(key, cc / 4 - |key| / 4), KeyWord(key, cc / 4 - 1));
            KeyWord(key, cc / 4) == XorSeq(p, NextTemp(q[0], q[1], q[2], q[3], rc, |key|, cc))
  {
    hide NextTemp, Temp, Rcon, XorSeq;
    NextTempIsTemp(KeyWord(key, cc / 4 - 1), |key|, cc, round);
  }

  lemma KeyBytesOfWord(key: seq<Byte>, cc: nat)
    requires KeyLength(|key|) && cc % 4 == 0
    ensures KeyWord(key, cc / 4) == [KeyByte(key, cc), KeyByte(key, cc + 1), KeyByte(key, cc + 2), KeyByte(key, cc + 3)]
  {
    hide KeyWord;
    assert (cc + 1) / 4 == (cc + 2) / 4 == (cc + 3) / 4 == cc / 4;
  }

  lemma FirstKeyByte(key: seq<Byte>, i: nat, j: nat)
    requires KeyLength(|key|) && j < 4 && 4 * i + j < |key|
    ensures KeyByte(key, 4 * i + j) == key[4 * i + j]
  {
    hide Temp;
    assert (4 * i + j) / 4 == i && (4 * i + j) % 4 == j && i < |key| / 4;
  }

  lemma FirstKeyBytes(key: seq<Byte>)
    requires KeyLength(|key|)
    ensures forall j :: 0 <= j < |key| ==> KeyByte(key, j) == key[j]
  {
    forall j | 0 <= j < |key| ensures KeyByte(key, j) == key[j] {
      FirstKeyByte(key, j / 4, j % 4);
      hide KeyByte;
    }
  }

  /** The bytes before `cc` hold the beginning of the expanded key. */
  ghost predicate FilledTo(ks: seq<Byte>, key: seq<Byte>, cc: nat)
    requires KeyLength(|key|)
  {
    cc <= |ks| && forall j :: 0 <= j < cc ==> ks[j] == KeyByte(key, j)
  }

  function WordAt(ks: seq<Byte>, at: nat): Word
    requires at + 4 <= |ks|
  {
    Quad(ks[at], ks[at + 1], ks[at + 2], ks[at + 3])
  }

  lemma FilledWord(ks: seq<Byte>, key: seq<Byte>, cc: nat, at: nat)
    requires KeyLength(|key|) && FilledTo(ks, key, cc) && at % 4 == 0 && at + 4 <= cc
    ensures WordAt(ks, at) == KeyWord(key, at / 4)
  {
    hide KeyByte, KeyWord;
    KeyBytesOfWord(key, at);
  }

  lemma FillFour(ks: seq<Byte>, key: seq<Byte>, cc: nat)
    requires KeyLength(|key|) && FilledTo(ks, key, cc) && cc % 4 == 0 && cc + 4 <= |ks|
    ensures var ks' := Store(ks, cc, cc + 1, cc + 2, cc + 3, KeyWord(key, cc / 4));
            FilledTo(ks', key, cc + 4) && ks'[cc + 4..] == ks[cc + 4..]
  {
    hide KeyByte, KeyWord;
    KeyBytesOfWord(key, cc);
  }

  lemma WordsBefore(keylen: uint8, cc: uint8)
    requires KeyLength(keylen) && keylen <= cc && cc % 4 == 0
    ensures (cc - 4) / 4 == cc / 4 - 1 && (cc - keylen) / 4 == cc / 4 - keylen / 4
    ensures (cc - 4) % 4 == 0 && (cc - keylen) % 4 == 0
  {
  }

  /** What the loop body computes from two earlier words of the schedule is the next one. */
  lemma NextWordIs(ks: seq<Byte>, key: seq<Byte>, cc: uint8, round: nat, rc: Byte, p: Word, q: Word)
    requires KeyLength(|key|) && |key| <= cc < 240 && cc % 4 == 0 && cc <= |ks| && FilledTo(ks, key, cc)
    requires round >= 1 && |key| * (round - 1) < cc <= |key| * round && rc == Rcon(round)
    requires p == WordAt(ks, cc - |key|) && q == WordAt(ks, cc - 4)
    ensures XorSeq(p, NextTemp(q[0], q[1], q[2], q[3], rc, |key|, cc)) == KeyWord(key, cc / 4)
  {
    hide *;
    WordsBefore(|key|, cc);
    NextKeyWord(key, cc, round, rc);
    FilledWord(ks, key, cc, cc - 4);
    FilledWord(ks, key, cc, cc - |key|);
  }

  lemma RoundEndsIff(keylen: uint8, cc: uint8, round: nat)
    requires KeyLength(keylen) && keylen <= cc && cc % 4 == 0
    requires round >= 1 && keylen * (round - 1) < cc <= keylen * round
    ensures cc % keylen == 0 <==> cc == keylen * round
  {
    hide KeyLength;
    if cc == keylen * round {
      DivMod(cc, keylen, round, 0);
    } else {
      DivMod(cc, keylen, round - 1, cc - keylen * (round - 1));
    }
  }

  /** One iteration of the key schedule loop. */
  method ScheduleStep(ksch: array<Byte>, ghost key: seq<Byte>, keylen: uint8, cc: uint8, rc: Byte, ghost round: nat)
    returns (rc': Byte)
    requires ksch.Length == SCHEDULE_SIZE && |key| == keylen && KeyLength(keylen)
    requires keylen <= cc < SCHEDULE_SIZE && cc % 4 == 0 && FilledTo(ksch[..], key, cc)
    requires round >= 1 && keylen * (round - 1) < cc <= keylen * round && rc == Rcon(round)
    modifies ksch
    ensures FilledTo(ksch[..], key, cc + 4)
    ensures ksch[cc + 4..] == old(ksch[cc + 4..])
    ensures if cc == keylen * round then rc' == Rcon(round + 1) else rc' == rc
  {
    hide KeyByte, KeyWord, SBox, F2, NextTemp, Xor, XTime, FilledTo, Store, XorSeq;
    var t0, t1, t2, t3 := ksch[cc - 4], ksch[cc - 3], ksch[cc - 2], ksch[cc - 1];
    var w := NextTemp(t0, t1, t2, t3, rc, keylen, cc);
    RoundEndsIff(keylen, cc, round);
    rc' := rc;
    if cc % keylen == 0 {
      F2IsXTime(rc);
      rc' := F2(rc);
    }
    var tt: uint8 := cc - keylen;
    var p := Quad(ksch[tt], ksch[tt + 1], ksch[tt + 2], ksch[tt + 3]);
    NextWordIs(ksch[..], key, cc, round, rc, p, Quad(t0, t1, t2, t3));
    FillFour(ksch[..], key, cc);
    StoreFour(ksch, cc, cc + 1, cc + 2, cc + 3, XorSeq(p, w));
  }

  method AesSetKey(key: array<Byte>, keylen: uint8, ctx: AesContext) returns (status: uint8)
    requires KeyLength(keylen) ==> keylen <= key.Length
    requires ctx.ksch.Length == SCHEDULE_SIZE && key != ctx.ksch
    modifies ctx, ctx.ksch
    ensures ctx.Valid()
    ensures KeyLength(keylen) ==>
              && status == 0
              && ctx.rnd == Rounds(keylen)
              && ctx.RoundKeys() == KeyExpansion(key[..keylen])
              && ctx.ksch[16 * ctx.rnd + 16..] == old(ctx.ksch[16 * Rounds(keylen) + 16..])
    ensures !KeyLength(keylen) ==> status == FAILED && ctx.rnd == 0 && ctx.ksch[..] == old(ctx.ksch[..])
  {
    hide KeyByte, XTime;
    if keylen != 16 && keylen != 24 && keylen != 32 {
      ctx.rnd := 0;
      return FAILED;
    }
    ghost var k := key[..keylen];
    BlockCopy(ctx.ksch, 0, key, 0, keylen);
    KeyCopied(k, old(ctx.ksch[..]), ctx.ksch[..]);
    hide FilledTo, Splice;
    var hi: uint8 := (keylen + 28) * 4;
    ctx.rnd := hi / 16 - 1;
    FillSchedule(ctx.ksch, k, keylen, hi);
    WholeSchedule(ctx.ksch[..], k, hi);
    return 0;
  }

  lemma KeyCopied(key: seq<Byte>, before: seq<Byte>, after: seq<Byte>)
    requires KeyLength(|key|) && |key| <= |before| && after == Splice(before, 0, key)
    ensures FilledTo(after, key, |key|)
    ensures |after| == |before| && forall i :: |key| <= i < |before| ==> after[i] == before[i]
  {
    hide KeyByte;
    FirstKeyBytes(key);
  }

  lemma WholeSchedule(ks: seq<Byte>, key: seq<Byte>, hi: nat)
    requires KeyLength(|key|) && hi == 16 * Rounds(|key|) + 16 && FilledTo(ks, key, hi)
    ensures hi <= |ks| && ks[..hi] == KeyExpansion(key)
  {
    hide KeyByte;
    ScheduleFilled(key, ks[..hi]);
  }

  /** The loop of aes_set_key. */
  method FillSchedule(ksch: array<Byte>, ghost key: seq<Byte>, keylen: uint8, hi: uint8)
    requires ksch.Length == SCHEDULE_SIZE && |key| == keylen && KeyLength(keylen) && hi == 4 * (keylen + 28)
    requires FilledTo(ksch[..], key, keylen)
    modifies ksch
    ensures FilledTo(ksch[..], key, hi) && ksch[hi..] == old(ksch[hi..])
  {
    hide KeyByte, XTime, FilledTo;
    var cc: uint8, rc: Byte := keylen, Byte(1);
    ghost var round := 1;
    while cc < hi
      invariant keylen <= cc <= hi && cc % 4 == 0
      invariant round >= 1 && keylen * (round - 1) < cc <= keylen * round && rc == Rcon(round)
      invariant FilledTo(ksch[..], key, cc)
      invariant ksch[hi..] == old(ksch[hi..])
    {
      rc := ScheduleStep(ksch, key, keylen, cc, rc, round);
      if cc == keylen * round {
        round := round + 1;
      }
      cc := cc + 4;
    }
  }

  lemma ScheduleFilled(key: seq<Byte>, ks: seq<Byte>)
    requires KeyLength(|key|) && |ks| == 16 * Rounds(|key|) + 16 && FilledTo(ks, key, |ks|)
    ensures ks == KeyExpansion(key)
  {
    hide KeyByte;
  }

  // ---------- one block ----------

  method AddInPlace(st: array<Byte>, ksch: array<Byte>, r: uint8)
    requires st.Length == N_BLOCK && st != ksch && 16 * r + 16 <= ksch.Length
    modifies st
    ensures st[..] == AddRoundKey(old(st[..]), ksch[..], r)
  {
    hide XorSeq;
    SpliceWhole(st[..], AddRoundKey(st[..], ksch[..], r));
    XorBlock(st, 0, ksch, r * N_BLOCK);
  }

  method CopyWithKey(d: array<Byte>, dAt: nat, s: array<Byte>, sAt: nat, ksch: array<Byte>, r: uint8)
    requires dAt + N_BLOCK <= d.Length && sAt + N_BLOCK <= s.Length && d != ksch && 16 * r + 16 <= ksch.Length
    modifies d
    ensures d[..] == Splice(old(d[..]), dAt, AddRoundKey(old(s[sAt..sAt + N_BLOCK]), ksch[..], r))
  {
    hide XorSeq, Splice;
    CopyAndKey(d, dAt, s, sAt, ksch, r * N_BLOCK);
  }

  /** The last key addition, into the output. */
  method CopyOut(d: array<Byte>, dAt: nat, s1: array<Byte>, ksch: array<Byte>, r: uint8)
    requires dAt + N_BLOCK <= d.Length && s1.Length == N_BLOCK && d != ksch && d != s1 && 16 * r + 16 <= ksch.Length
    modifies d
    ensures d[..] == Splice(old(d[..]), dAt, AddRoundKey(s1[..], ksch[..], r))
  {
    hide AddRoundKey, Splice;
    assert s1[0..N_BLOCK] == s1[..];
    CopyWithKey(d, dAt, s1, 0, ksch, r);
  }

  /** The copy of the input to which the first round key has been added. */
  method FirstKey(input: array<Byte>, inAt: nat, ksch: array<Byte>, r: uint8) returns (s1: array<Byte>)
    requires inAt + N_BLOCK <= input.Length && 16 * r + 16 <= ksch.Length
    ensures fresh(s1) && s1.Length == N_BLOCK && s1[..] == AddRoundKey(input[inAt..inAt + N_BLOCK], ksch[..], r)
  {
    hide AddRoundKey, Splice;
    s1 := new Byte[N_BLOCK];
    SpliceWhole(s1[..], AddRoundKey(input[inAt..inAt + N_BLOCK], ksch[..], r));
    CopyWithKey(s1, 0, input, inAt, ksch, r);
  }

  lemma EnterRounds(block: Block, ks: seq<Byte>, rounds: nat)
    requires Schedule(ks, rounds)
    ensures Cipher(block, ks[..16 * rounds + 16], rounds) == RoundsFrom(AddRoundKey(block, ks, 0), ks, 1, rounds)
    ensures InvCipher(block, ks[..16 * rounds + 16], rounds) ==
            InvRoundsFrom(AddRoundKey(block, ks, rounds), ks, rounds - 1)
  {
    hide AddRoundKey, RoundsFrom, InvRoundsFrom;
    CipherUsesPrefix(block, ks, rounds);
  }

  lemma OneRound(st: Block, ks: seq<Byte>, r: nat, rounds: nat)
    requires Schedule(ks, rounds) && 1 <= r <= rounds
    ensures var shifted := ShiftRows(SubBytes(st));
            RoundsFrom(st, ks, r, rounds) ==
              if r == rounds then AddRoundKey(shifted, ks, r)
              else RoundsFrom(AddRoundKey(MixColumns(shifted), ks, r), ks, r + 1, rounds)
  {
    hide AddRoundKey, MixColumns, ShiftRows, SubBytes;
  }

  lemma OneInvRound(st: Block, ks: seq<Byte>, r: nat)
    requires 16 * r + 16 <= |ks|
    ensures var keyed := AddRoundKey(InvSubBytes(InvShiftRows(st)), ks, r);
            InvRoundsFrom(st, ks, r) == if r == 0 then keyed else InvRoundsFrom(InvMixColumns(keyed), ks, r - 1)
  {
    hide AddRoundKey, InvMixColumns, InvShiftRows, InvSubBytes;
  }

  /** The rounds between the first and the last key addition of aes_encrypt. */
  method EncryptRounds(s1: array<Byte>, ksch: array<Byte>, rnd: uint8)
    requires s1.Length == N_BLOCK && s1 != ksch && Schedule(ksch[..], rnd)
    modifies s1
    ensures AddRoundKey(s1[..], ksch[..], rnd) == RoundsFrom(old(s1[..]), ksch[..], 1, rnd)
  {
    hide RoundsFrom, AddRoundKey, MixColumns, ShiftRows, SubBytes;
    var r: uint8 := 1;
    while r < rnd
      invariant 1 <= r <= rnd
      invariant RoundsFrom(s1[..], ksch[..], r, rnd) == RoundsFrom(old(s1[..]), ksch[..], 1, rnd)
    {
      OneRound(s1[..], ksch[..], r, rnd);
      MixSubColumns(s1);
      AddInPlace(s1, ksch, r);
      r := r + 1;
    }
    OneRound(s1[..], ksch[..], r, rnd);
    ShiftSubRows(s1);
  }

  /** aes_encrypt up to the last key addition. */
  method EncryptBlock(input: array<Byte>, inAt: nat, ksch: array<Byte>, rnd: uint8) returns (s1: array<Byte>)
    requires Schedule(ksch[..], rnd) && inAt + N_BLOCK <= input.Length
    ensures fresh(s1) && s1.Length == N_BLOCK
    ensures AddRoundKey(s1[..], ksch[..], rnd) == Cipher(input[inAt..inAt + N_BLOCK], ksch[..16 * rnd + 16], rnd)
  {
    hide Cipher, InvCipher, RoundsFrom, AddRoundKey;
    ghost var block, ks := input[inAt..inAt + N_BLOCK], ksch[..];
    EnterRounds(block, ks, rnd);
    s1 := FirstKey(input, inAt, ksch, 0);
    EncryptRounds(s1, ksch, rnd);
  }

  /** The branch of aes_encrypt for a context that has a key. */
  method EncryptKeyed(input: array<Byte>, inAt: nat, output: array<Byte>, outAt: nat, ksch: array<Byte>, rnd: uint8)
    requires Schedule(ksch[..], rnd) && output != ksch
    requires inAt + N_BLOCK <= input.Length && outAt + N_BLOCK <= output.Length
    modifies output
    ensures output[..] ==
            Splice(old(output[..]), outAt, Cipher(old(input[inAt..inAt + N_BLOCK]), ksch[..16 * rnd + 16], rnd))
  {
    hide Cipher, AddRoundKey, Splice;
    var s1 := EncryptBlock(input, inAt, ksch, rnd);
    CopyOut(output, outAt, s1, ksch, rnd);
  }

  /** `input` and `output` may be the same array. */
  method AesEncrypt(input: array<Byte>, inAt: nat, output: array<Byte>, outAt: nat, ctx: AesContext)
    returns (status: uint8)
    requires ctx.Valid() && output != ctx.ksch
    requires inAt + N_BLOCK <= input.Length && outAt + N_BLOCK <= output.Length
    modifies output
    ensures ctx.rnd == 0 ==> status == FAILED && output[..] == old(output[..])
    ensures ctx.rnd > 0 ==>
            status == 0 && output[..] == Splice(old(output[..]), outAt, ctx.E(old(input[inAt..inAt + N_BLOCK])))
  {
    if ctx.rnd == 0 {
      return FAILED;
    }
    hide Cipher, Splice;
    EncryptKeyed(input, inAt, output, outAt, ctx.ksch, ctx.rnd);
    return 0;
  }

  /**
   The rounds between the first and the last key addition of aes_decrypt. The state of the loop is the
   standard's, half a round further on: InvShiftRows and InvSubBytes have already been applied to it.
   */
  method DecryptRounds(s1: array<Byte>, ksch: array<Byte>, rnd: uint8)
    requires s1.Length == N_BLOCK && s1 != ksch && Schedule(ksch[..], rnd)
    modifies s1
    ensures AddRoundKey(s1[..], ksch[..], 0) == InvRoundsFrom(old(s1[..]), ksch[..], rnd - 1)
  {
    hide InvRoundsFrom, AddRoundKey, InvMixColumns, InvShiftRows, InvSubBytes;
    ghost var st := s1[..];
    InvShiftSubRows(s1);
    var r: uint8 := rnd - 1;
    while r != 0
      invariant 0 <= r < rnd && |st| == 16 && s1[..] == InvSubBytes(InvShiftRows(st))
      invariant InvRoundsFrom(st, ksch[..], r) == InvRoundsFrom(old(s1[..]), ksch[..], rnd - 1)
      decreases r
    {
      OneInvRound(st, ksch[..], r);
      AddInPlace(s1, ksch, r);
      st := InvMixColumns(s1[..]);
      InvMixSubColumns(s1);
      r := r - 1;
    }
    OneInvRound(st, ksch[..], 0);
  }

  /** aes_decrypt up to the last key addition. */
  method DecryptBlock(input: array<Byte>, inAt: nat, ksch: array<Byte>, rnd: uint8) returns (s1: array<Byte>)
    requires Schedule(ksch[..], rnd) && inAt + N_BLOCK <= input.Length
    ensures fresh(s1) && s1.Length == N_BLOCK
    ensures AddRoundKey(s1[..], ksch[..], 0) == InvCipher(input[inAt..inAt + N_BLOCK], ksch[..16 * rnd + 16], rnd)
  {
    hide Cipher, InvCipher, InvRoundsFrom, AddRoundKey;
    ghost var block, ks := input[inAt..inAt + N_BLOCK], ksch[..];
    EnterRounds(block, ks, rnd);
    s1 := FirstKey(input, inAt, ksch, rnd);
    DecryptRounds(s1, ksch, rnd);
  }

  /** The branch of aes_decrypt for a context that has a key. */
  method DecryptKeyed(input: array<Byte>, inAt: nat, output: array<Byte>, outAt: nat, ksch: array<Byte>, rnd: uint8)
    requires Schedule(ksch[..], rnd) && output != ksch
    requires inAt + N_BLOCK <= input.Length && outAt + N_BLOCK <= output.Length
    modifies output
    ensures output[..] ==
            Splice(old(output[..]), outAt, InvCipher(old(input[inAt..inAt + N_BLOCK]), ksch[..16 * rnd + 16], rnd))
  {
    hide InvCipher, AddRoundKey, Splice;
    var s1 := DecryptBlock(input, inAt, ksch, rnd);
    CopyOut(output, outAt, s1, ksch, 0);
  }

  method AesDecrypt(input: array<Byte>, inAt: nat, output: array<Byte>, outAt: nat, ctx: AesContext)
    returns (status: uint8)
    requires ctx.Valid() && output != ctx.ksch
    requires inAt + N_BLOCK <= input.Length && outAt + N_BLOCK <= output.Length
    modifies output
    ensures ctx.rnd == 0 ==> status == FAILED && output[..] == old(output[..])
    ensures ctx.rnd > 0 ==>
            status == 0 && output[..] == Splice(old(output[..]), outAt, ctx.D(old(input[inAt..inAt + N_BLOCK])))
  {
    hide Cipher, InvCipher, Splice;
    if ctx.rnd == 0 {
      return FAILED;
    }
    DecryptKeyed(input, inAt, output, outAt, ctx.ksch, ctx.rnd);
    return 0;
  }

  /** aes_encrypt on arrays of exactly one block. */
  method EncryptWhole(input: array<Byte>, output: array<Byte>, ctx: AesContext)
    requires ctx.Valid() && ctx.rnd > 0 && output != ctx.ksch && input.Length == output.Length == N_BLOCK
    modifies output
    ensures output[..] == ctx.E(old(input[..]))
  {
    hide Cipher, Splice;
    assert input[..] == input[0..N_BLOCK];
    SpliceWhole(output[..], ctx.E(input[..]));
    var status := AesEncrypt(input, 0, output, 0, ctx);
  }
}
