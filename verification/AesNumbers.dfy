/**
 AES computed on numbers: a block is written as the standards write it, and each step is the one of FIPS 197 on its
 bytes. The known answers are evaluated with it.
 */
module AesNumbers {
  import opened Bytes
  import opened GaloisField
  import opened SubstitutionBox
  import opened Fips197

  /** The four bytes of a number, the first one from its top. */
  function Top(x: bv32): bv8 { (x >> 24) as bv8 }
  function Second(x: bv32): bv8 { ((x >> 16) & 0xff) as bv8 }
  function Third(x: bv32): bv8 { ((x >> 8) & 0xff) as bv8 }
  function Low(x: bv32): bv8 { (x & 0xff) as bv8 }

  /** A word as the standard writes it. */
  function W(x: bv32): Word {
    [Byte(Top(x)), Byte(Second(x)), Byte(Third(x)), Byte(Low(x))]
  }

  function FourWords(a: bv32, b: bv32, c: bv32, d: bv32): Block {
    Columns(W(a), W(b), W(c), W(d))
  }

  function Word0(x: bv128): bv32 { (x >> 96) as bv32 }
  function Word1(x: bv128): bv32 { ((x >> 64) & 0xffffffff) as bv32 }
  function Word2(x: bv128): bv32 { ((x >> 32) & 0xffffffff) as bv32 }
  function Word3(x: bv128): bv32 { (x & 0xffffffff) as bv32 }

  /** A block as the standard writes it. */
  function B(x: bv128): Block {
    FourWords(Word0(x), Word1(x), Word2(x), Word3(x))
  }

  function Pack(p: bv8, q: bv8, r: bv8, s: bv8): bv32 {
    (p as bv32 << 24) | (q as bv32 << 16) | (r as bv32 << 8) | s as bv32
  }

  lemma Packed(p: bv8, q: bv8, r: bv8, s: bv8)
    ensures var x := Pack(p, q, r, s); Top(x) == p && Second(x) == q && Third(x) == r && Low(x) == s
  {
  }

  lemma XorBytes(p: bv8, q: bv8)
    ensures Xor(Byte(p), Byte(q)) == Byte(p ^ q)
  {
  }

  lemma Parts(x: bv32, y: bv32)
    ensures Top(x ^ y) == Top(x) ^ Top(y) && Second(x ^ y) == Second(x) ^ Second(y)
    ensures Third(x ^ y) == Third(x) ^ Third(y) && Low(x ^ y) == Low(x) ^ Low(y)
  {
  }

  lemma XorWords(x: bv32, y: bv32)
    ensures XorSeq(W(x), W(y)) == W(x ^ y)
  {
    hide Top, Second, Third, Low, XorSeq, Xor;
    Parts(x, y);
    XorBytes(Top(x), Top(y));
    XorBytes(Second(x), Second(y));
    XorBytes(Third(x), Third(y));
    XorBytes(Low(x), Low(y));
    XorFour(W(x), W(y));
  }

  lemma XorFour(v: Word, w: Word)
    ensures XorSeq(v, w) == [Xor(v[0], w[0]), Xor(v[1], w[1]), Xor(v[2], w[2]), Xor(v[3], w[3])]
  {
    hide Xor;
  }

  lemma XorBlocks(a: bv32, b: bv32, c: bv32, d: bv32, k: bv32, l: bv32, m: bv32, n: bv32)
    ensures XorSeq(FourWords(a, b, c, d), FourWords(k, l, m, n)) == FourWords(a ^ k, b ^ l, c ^ m, d ^ n)
  {
    XorWords(a, k);
    XorWords(b, l);
    XorWords(c, m);
    XorWords(d, n);
    XorColumns(W(a), W(b), W(c), W(d), W(k), W(l), W(m), W(n));
    hide W, Xor, XorSeq;
  }

  lemma XorColumns(a: Word, b: Word, c: Word, d: Word, k: Word, l: Word, m: Word, n: Word)
    ensures XorSeq(Columns(a, b, c, d), Columns(k, l, m, n)) ==
            Columns(XorSeq(a, k), XorSeq(b, l), XorSeq(c, m), XorSeq(d, n))
  {
    hide Xor;
  }

  /** SubBytes and ShiftRows on one column. */
  function SubShift(a: bv32, b: bv32, c: bv32, d: bv32): bv32 {
    Pack(Look((a >> 24) as bv8), Look(((b >> 16) & 0xff) as bv8), Look(((c >> 8) & 0xff) as bv8),
         Look((d & 0xff) as bv8))
  }

  lemma SubShiftWords(a: Word, b: Word, c: Word, d: Word)
    ensures ShiftRows(SubBytes(Columns(a, b, c, d))) ==
            Columns([SBox(a[0]), SBox(b[1]), SBox(c[2]), SBox(d[3])], [SBox(b[0]), SBox(c[1]), SBox(d[2]), SBox(a[3])],
                    [SBox(c[0]), SBox(d[1]), SBox(a[2]), SBox(b[3])], [SBox(d[0]), SBox(a[1]), SBox(b[2]), SBox(c[3])])
  {
    hide SBox;
    var (k, l) := ([SBox(a[0]), SBox(b[1]), SBox(c[2]), SBox(d[3])], [SBox(b[0]), SBox(c[1]), SBox(d[2]), SBox(a[3])]);
    var (m, n) := ([SBox(c[0]), SBox(d[1]), SBox(a[2]), SBox(b[3])], [SBox(d[0]), SBox(a[1]), SBox(b[2]), SBox(c[3])]);
    SameIsEqual(ShiftRows(SubBytes(Columns(a, b, c, d))), Columns(k, l, m, n));
  }

  lemma SubShiftWord(a: bv32, b: bv32, c: bv32, d: bv32)
    ensures W(SubShift(a, b, c, d)) == [SBox(W(a)[0]), SBox(W(b)[1]), SBox(W(c)[2]), SBox(W(d)[3])]
  {
    Packed(Look(Top(a)), Look(Second(b)), Look(Third(c)), Look(Low(d)));
    hide Look, Pack;
  }

  lemma SubShiftColumns(a: bv32, b: bv32, c: bv32, d: bv32)
    ensures ShiftRows(SubBytes(FourWords(a, b, c, d))) ==
            FourWords(SubShift(a, b, c, d), SubShift(b, c, d, a), SubShift(c, d, a, b), SubShift(d, a, b, c))
  {
    hide W, SubShift, SBox, ShiftRows, SubBytes, Columns;
    SubShiftWords(W(a), W(b), W(c), W(d));
    SubShiftWord(a, b, c, d);
    SubShiftWord(b, c, d, a);
    SubShiftWord(c, d, a, b);
    SubShiftWord(d, a, b, c);
  }

  function MixByte(p: bv8, q: bv8, r: bv8, s: bv8): bv8 {
    SubstitutionBox.Double(p) ^ SubstitutionBox.Double(q) ^ q ^ r ^ s
  }

  function Mix(x: bv32): bv32 {
    var (p, q, r, s) := (Top(x), Second(x), Third(x), Low(x));
    Pack(MixByte(p, q, r, s), MixByte(q, r, s, p), MixByte(r, s, p, q), MixByte(s, p, q, r))
  }

  lemma TimesTwoAndThree(x: bv8)
    ensures Times(Byte(x), Byte(2)).v == SubstitutionBox.Double(x)
    ensures Times(Byte(x), Byte(3)).v == SubstitutionBox.Double(x) ^ x
  {
    ProductIsTimes(x, 2);
    ProductIsTimes(x, 3);
    hide Times;
  }

  lemma MixSum(p: bv8, q: bv8, r: bv8, s: bv8)
    ensures Sum4(Times(Byte(p), Byte(2)), Times(Byte(q), Byte(3)), Byte(r), Byte(s)) == Byte(MixByte(p, q, r, s))
  {
    TimesTwoAndThree(p);
    TimesTwoAndThree(q);
    hide Times, SubstitutionBox.Double;
  }

  lemma MixWord(x: bv32)
    ensures MixColumn(W(x)) == W(Mix(x))
  {
    hide Top, Second, Third, Low, Pack, Times, MixByte, Sum4;
    var (p, q, r, s) := (Top(x), Second(x), Third(x), Low(x));
    MixSum(p, q, r, s);
    MixSum(q, r, s, p);
    MixSum(r, s, p, q);
    MixSum(s, p, q, r);
    Packed(MixByte(p, q, r, s), MixByte(q, r, s, p), MixByte(r, s, p, q), MixByte(s, p, q, r));
  }

  lemma MixBlock(a: bv32, b: bv32, c: bv32, d: bv32)
    ensures MixColumns(FourWords(a, b, c, d)) == FourWords(Mix(a), Mix(b), Mix(c), Mix(d))
  {
    hide W, Mix, MixColumn;
    MixWord(a);
    MixWord(b);
    MixWord(c);
    MixWord(d);
    ColumnsOf(W(a), W(b), W(c), W(d));
  }

  // ---------- the table on numbers ----------

  /** A row of Figure 7 of FIPS 197, for the sixteen bytes from `x` on. */
  predicate TableRow(x: bv8, row: bv128) {
    && Look(x) == ((row >> 120) & 0xff) as bv8 && Look(x + 1) == ((row >> 112) & 0xff) as bv8
    && Look(x + 2) == ((row >> 104) & 0xff) as bv8 && Look(x + 3) == ((row >> 96) & 0xff) as bv8
    && Look(x + 4) == ((row >> 88) & 0xff) as bv8 && Look(x + 5) == ((row >> 80) & 0xff) as bv8
    && Look(x + 6) == ((row >> 72) & 0xff) as bv8 && Look(x + 7) == ((row >> 64) & 0xff) as bv8
    && Look(x + 8) == ((row >> 56) & 0xff) as bv8 && Look(x + 9) == ((row >> 48) & 0xff) as bv8
    && Look(x + 10) == ((row >> 40) & 0xff) as bv8 && Look(x + 11) == ((row >> 32) & 0xff) as bv8
    && Look(x + 12) == ((row >> 24) & 0xff) as bv8 && Look(x + 13) == ((row >> 16) & 0xff) as bv8
    && Look(x + 14) == ((row >> 8) & 0xff) as bv8 && Look(x + 15) == (row & 0xff) as bv8
  }

  predicate FirstRows() {
    TableRow(0x00, 0x637c777bf26b6fc53001672bfed7ab76) && TableRow(0x10, 0xca82c97dfa5947f0add4a2af9ca472c0)
  }

  predicate SecondRows() {
    TableRow(0x20, 0xb7fd9326363ff7cc34a5e5f171d83115) && TableRow(0x30, 0x04c723c31896059a071280e2eb27b275)
  }

  predicate ThirdRows() {
    TableRow(0x40, 0x09832c1a1b6e5aa0523bd6b329e32f84) && TableRow(0x50, 0x53d100ed20fcb15b6acbbe394a4c58cf)
  }

  predicate FourthRows() {
    TableRow(0x60, 0xd0efaafb434d338545f9027f503c9fa8) && TableRow(0x70, 0x51a3408f929d38f5bcb6da2110fff3d2)
  }

  predicate FifthRows() {
    TableRow(0x80, 0xcd0c13ec5f974417c4a77e3d645d1973) && TableRow(0x90, 0x60814fdc222a908846eeb814de5e0bdb)
  }

  predicate SixthRows() {
    TableRow(0xa0, 0xe0323a0a4906245cc2d3ac629195e479) && TableRow(0xb0, 0xe7c8376d8dd54ea96c56f4ea657aae08)
  }

  predicate SeventhRows() {
    TableRow(0xc0, 0xba78252e1ca6b4c6e8dd741f4bbd8b8a) && TableRow(0xd0, 0x703eb5664803f60e613557b986c11d9e)
  }

  predicate LastRows() {
    TableRow(0xe0, 0xe1f8981169d98e949b1e87e9ce5528df) && TableRow(0xf0, 0x8ca1890dbfe6426841992d0fb054bb16)
  }

  lemma FirstRowsHold()
    ensures FirstRows()
  {
  }

  lemma SecondRowsHold()
    ensures SecondRows()
  {
  }

  lemma ThirdRowsHold()
    ensures ThirdRows()
  {
  }

  lemma FourthRowsHold()
    ensures FourthRows()
  {
  }

  lemma FifthRowsHold()
    ensures FifthRows()
  {
  }

  lemma SixthRowsHold()
    ensures SixthRows()
  {
  }

  lemma SeventhRowsHold()
    ensures SeventhRows()
  {
  }

  lemma LastRowsHold()
    ensures LastRows()
  {
  }

  predicate Table() {
    && FirstRows() && SecondRows() && ThirdRows() && FourthRows()
    && FifthRows() && SixthRows() && SeventhRows() && LastRows()
  }

  lemma TableHolds()
    ensures Table()
  {
    hide FirstRows, SecondRows, ThirdRows, FourthRows, FifthRows, SixthRows, SeventhRows, LastRows;
    FirstRowsHold();
    SecondRowsHold();
    ThirdRowsHold();
    FourthRowsHold();
    FifthRowsHold();
    SixthRowsHold();
    SeventhRowsHold();
    LastRowsHold();
  }

  // ---------- one round on numbers ----------

  predicate SubShifted(s: bv128, u: bv128) {
    var (a, b, c, d) :=
      ((s >> 96) as bv32, ((s >> 64) & 0xffffffff) as bv32, ((s >> 32) & 0xffffffff) as bv32, (s & 0xffffffff) as bv32);
    && SubShift(a, b, c, d) == (u >> 96) as bv32 && SubShift(b, c, d, a) == ((u >> 64) & 0xffffffff) as bv32
    && SubShift(c, d, a, b) == ((u >> 32) & 0xffffffff) as bv32 && SubShift(d, a, b, c) == (u & 0xffffffff) as bv32
  }

  predicate Mixed(u: bv128, v: bv128) {
    && Mix((u >> 96) as bv32) == (v >> 96) as bv32
    && Mix(((u >> 64) & 0xffffffff) as bv32) == ((v >> 64) & 0xffffffff) as bv32
    && Mix(((u >> 32) & 0xffffffff) as bv32) == ((v >> 32) & 0xffffffff) as bv32
    && Mix((u & 0xffffffff) as bv32) == (v & 0xffffffff) as bv32
  }

  lemma SubShiftedBlock(s: bv128, u: bv128)
    requires SubShifted(s, u)
    ensures ShiftRows(SubBytes(B(s))) == B(u)
  {
    hide FourWords, SubShift, ShiftRows, SubBytes;
    SubShiftColumns(Word0(s), Word1(s), Word2(s), Word3(s));
  }

  lemma MixedBlock(u: bv128, v: bv128)
    requires Mixed(u, v)
    ensures MixColumns(B(u)) == B(v)
  {
    hide FourWords, Mix, MixColumns;
    MixBlock(Word0(u), Word1(u), Word2(u), Word3(u));
  }

  lemma XorParts(x: bv128, y: bv128)
    ensures Word0(x ^ y) == Word0(x) ^ Word0(y) && Word1(x ^ y) == Word1(x) ^ Word1(y)
    ensures Word2(x ^ y) == Word2(x) ^ Word2(y) && Word3(x ^ y) == Word3(x) ^ Word3(y)
  {
  }

  lemma XorNumbers(x: bv128, y: bv128)
    ensures XorSeq(B(x), B(y)) == B(x ^ y)
  {
    hide FourWords, XorSeq, Word0, Word1, Word2, Word3;
    XorParts(x, y);
    XorBlocks(Word0(x), Word1(x), Word2(x), Word3(x), Word0(y), Word1(y), Word2(y), Word3(y));
  }

  // ---------- the key expansion on numbers ----------

  type AesKey = key: seq<Byte> | KeyLength(|key|) witness Zeros(16)

  /** Word `i` of the expanded key is this number. */
  ghost predicate KeyIs(key: AesKey, i: nat, x: bv32) {
    KeyWord(key, i) == W(x)
  }

  /** The four words from word `4 * r` on are these. */
  ghost predicate Row(key: AesKey, r: nat, k: bv128) {
    && KeyIs(key, 4 * r, (k >> 96) as bv32) && KeyIs(key, 4 * r + 1, ((k >> 64) & 0xffffffff) as bv32)
    && KeyIs(key, 4 * r + 2, ((k >> 32) & 0xffffffff) as bv32) && KeyIs(key, 4 * r + 3, (k & 0xffffffff) as bv32)
  }

  /** SubWord after RotWord. */
  function SubRot(x: bv32): bv32 {
    Pack(Look(((x >> 16) & 0xff) as bv8), Look(((x >> 8) & 0xff) as bv8), Look((x & 0xff) as bv8),
         Look((x >> 24) as bv8))
  }

  lemma SubRotWord(x: bv32)
    ensures SubWord(RotWord(W(x))) == W(SubRot(x)) && SubWord(W(x)) == W(SubShift(x, x, x, x))
  {
    Packed(Look(Second(x)), Look(Third(x)), Look(Low(x)), Look(Top(x)));
    hide SubShift, Look, Pack;
    SubShiftWord(x, x, x, x);
  }

  lemma RconWord(rc: bv8)
    ensures W(rc as bv32 << 24) == [Byte(rc), Byte(0), Byte(0), Byte(0)]
  {
  }

  /** The three cases of Temp, on numbers. */
  lemma TempAtStart(q: bv32, nk: nat, i: nat, rc: bv8)
    requires 0 < nk <= i && i % nk == 0 && i / nk >= 1 && Rcon(i / nk) == Byte(rc)
    ensures Temp(W(q), nk, i) == W(SubRot(q) ^ (rc as bv32 << 24))
  {
    hide W, SubShift, SubRot, Rcon, Xor, SubWord, RotWord;
    SubRotWord(q);
    RconWord(rc);
    var w := SubRot(q);
    XorWords(w, rc as bv32 << 24);
    XorFour(W(w), W(rc as bv32 << 24));
    XorZero(W(w)[1]);
    XorZero(W(w)[2]);
    XorZero(W(w)[3]);
  }

  lemma TempInTheMiddle(q: bv32, i: nat)
    requires i >= 8 && i % 8 == 4
    ensures Temp(W(q), 8, i) == W(SubShift(q, q, q, q))
  {
    hide W, SubShift, SubWord, Rcon;
    SubRotWord(q);
  }

  lemma TempElsewhere(q: bv32, nk: nat, i: nat)
    requires 0 < nk <= i && i % nk != 0 && (nk <= 6 || i % nk != 4)
    ensures Temp(W(q), nk, i) == W(q)
  {
  }

  lemma NextWord(key: AesKey, nk: nat, i: nat, p: bv32, q: bv32, t: bv32)
    requires nk == |key| / 4 <= i && KeyIs(key, i - nk, p) && KeyIs(key, i - 1, q)
    requires Temp(W(q), nk, i) == W(t)
    ensures KeyIs(key, i, p ^ t)
  {
    hide W, Temp, XorSeq;
    XorWords(p, t);
  }

  lemma NextStart(key: AesKey, nk: nat, i: nat, rc: bv8, p: bv32, q: bv32, e: bv32)
    requires nk == |key| / 4 <= i && KeyIs(key, i - nk, p) && KeyIs(key, i - 1, q)
    requires i % nk == 0 && i / nk >= 1 && Rcon(i / nk) == Byte(rc) && e == p ^ (SubRot(q) ^ (rc as bv32 << 24))
    ensures KeyIs(key, i, e)
  {
    hide KeyIs, SubRot, Rcon, Temp, W;
    TempAtStart(q, nk, i, rc);
    NextWord(key, nk, i, p, q, SubRot(q) ^ (rc as bv32 << 24));
  }

  lemma NextMiddle(key: AesKey, i: nat, p: bv32, q: bv32, e: bv32)
    requires |key| == 32 && i >= 8 && i % 8 == 4 && KeyIs(key, i - 8, p) && KeyIs(key, i - 1, q)
    requires e == p ^ SubShift(q, q, q, q)
    ensures KeyIs(key, i, e)
  {
    hide KeyIs, SubShift, Temp, W;
    TempInTheMiddle(q, i);
    NextWord(key, 8, i, p, q, SubShift(q, q, q, q));
  }

  lemma NextElsewhere(key: AesKey, nk: nat, i: nat, p: bv32, q: bv32)
    requires nk == |key| / 4 <= i && KeyIs(key, i - nk, p) && KeyIs(key, i - 1, q)
    requires i % nk != 0 && (nk <= 6 || i % nk != 4)
    ensures KeyIs(key, i, p ^ q)
  {
    hide KeyIs, Temp, W;
    TempElsewhere(q, nk, i);
    NextWord(key, nk, i, p, q, q);
  }

  lemma SliceOfSlice(s: seq<Byte>, a: nat, b: nat, c: nat, d: nat)
    requires a <= b <= |s| && c <= d <= b - a
    ensures s[a..b][c..d] == s[a + c..a + d]
  {
    forall i | 0 <= i < d - c ensures s[a..b][c..d][i] == s[a + c..a + d][i] {
    }
  }

  lemma BlockWords(b: Block, x: bv128)
    requires b == B(x)
    ensures b[0..4] == W(Word0(x)) && b[4..8] == W(Word1(x)) && b[8..12] == W(Word2(x)) && b[12..16] == W(Word3(x))
  {
    hide W, Word0, Word1, Word2, Word3;
    ColumnsOf(W(Word0(x)), W(Word1(x)), W(Word2(x)), W(Word3(x)));
  }

  /** The words of a key are its bytes. */
  lemma RowOfKey(key: AesKey, r: nat, k: bv128)
    requires 16 * r + 16 <= |key| && key[16 * r..16 * r + 16] == B(k)
    ensures Row(key, r, k)
  {
    hide W, B;
    BlockWords(key[16 * r..16 * r + 16], k);
    SliceOfSlice(key, 16 * r, 16 * r + 16, 0, 4);
    SliceOfSlice(key, 16 * r, 16 * r + 16, 4, 8);
    SliceOfSlice(key, 16 * r, 16 * r + 16, 8, 12);
    SliceOfSlice(key, 16 * r, 16 * r + 16, 12, 16);
  }

  lemma RowExpands(key: AesKey, r: nat, k: bv128)
    requires r <= Rounds(|key|) && Row(key, r, k)
    ensures RoundKey(KeyExpansion(key), r) == B(k)
  {
    hide W, KeyWord, Word0, Word1, Word2, Word3;
    BlockIsWords(key, r, k);
    forall j | 0 <= j < 16 ensures RoundKey(KeyExpansion(key), r)[j] == B(k)[j] {
      assert (16 * r + j) / 4 == 4 * r + j / 4 && (16 * r + j) % 4 == j % 4;
    }
  }

  lemma BlockIsWords(key: AesKey, r: nat, k: bv128)
    requires Row(key, r, k)
    ensures KeyWord(key, 4 * r) == W(Word0(k)) && KeyWord(key, 4 * r + 1) == W(Word1(k))
    ensures KeyWord(key, 4 * r + 2) == W(Word2(k)) && KeyWord(key, 4 * r + 3) == W(Word3(k))
  {
    hide W, KeyWord;
  }

  // ---------- the cipher on numbers ----------

  /** The result of the rounds from `r` on, with this state before them. */
  function RoundsOn(key: AesKey, r: nat, x: bv128): Block
    requires 1 <= r <= Rounds(|key|)
  {
    RoundsFrom(B(x), KeyExpansion(key), r, Rounds(|key|))
  }

  lemma FirstAdd(key: AesKey, x: bv128, k: bv128)
    requires Row(key, 0, k)
    ensures AesUnder(key)(B(x)) == RoundsOn(key, 1, x ^ k)
  {
    hide B, Row, RoundsFrom, KeyExpansion, RoundKey, XorSeq;
    RowExpands(key, 0, k);
    XorNumbers(x, k);
  }

  /** One round on the state `s`: `u` is the state before MixColumns and `v` the one after it. */
  lemma NextRound(key: AesKey, r: nat, k: bv128, s: bv128, u: bv128, v: bv128)
    requires 1 <= r < Rounds(|key|) && Row(key, r, k) && SubShifted(s, u) && Mixed(u, v)
    ensures RoundsOn(key, r, s) == RoundsOn(key, r + 1, v ^ k)
  {
    hide B, Row, KeyExpansion, RoundKey, SubShifted, Mixed, ShiftRows, SubBytes, MixColumns, XorSeq;
    RowExpands(key, r, k);
    SubShiftedBlock(s, u);
    MixedBlock(u, v);
    XorNumbers(v, k);
  }

  lemma LastRound(key: AesKey, r: nat, k: bv128, s: bv128, u: bv128)
    requires r == Rounds(|key|) && Row(key, r, k) && SubShifted(s, u)
    ensures RoundsOn(key, r, s) == B(u ^ k)
  {
    hide B, Row, KeyExpansion, RoundKey, SubShifted, ShiftRows, SubBytes, MixColumns, XorSeq;
    RowExpands(key, r, k);
    SubShiftedBlock(s, u);
    XorNumbers(u, k);
  }
}
