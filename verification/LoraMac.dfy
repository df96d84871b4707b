/** loramac-crypto.c: LoRaWAN payload encryption and message integrity code over static buffers. */
module LoraMac {
  import opened Buffers
  import opened Bytes
  import opened Fips197
  import opened Aes
  import opened Cmac

  // ---------- LoRaWAN 1.0.2, sections 4.3.3 and 4.4 ----------

  /** The four bytes of a word, least significant first. */
  function LittleEndian(w: bv32): Word {
    [Byte((w & 0xff) as bv8), Byte(((w >> 8) & 0xff) as bv8), Byte(((w >> 16) & 0xff) as bv8),
     Byte(((w >> 24) & 0xff) as bv8)]
  }

  /** The fields that identify a frame. */
  datatype Frame = Frame(dir: Byte, address: bv32, counter: bv32)

  /** A block A_i or B_0: a tag, four zero bytes, the frame, a zero byte and a last byte. */
  function FrameBlock(tag: Byte, f: Frame, last: Byte): Block {
    Quad(tag, Byte(0), Byte(0), Byte(0)) + [Byte(0), f.dir] + LittleEndian(f.address) + LittleEndian(f.counter)
      + [Byte(0), last]
  }

  function CounterBlock(f: Frame, i: Byte): Block {
    FrameBlock(Byte(0x01), f, i)
  }

  /** What `& 0xFF` leaves of a counter that starts at 0. */
  function LowByte(n: nat): Byte {
    if n == 0 then Byte(0) else Byte(LowByte(n - 1).v + 1)
  }

  /** Byte `k` of the key stream S_1 S_2 ... */
  function StreamByte(e: Block -> Block, f: Frame, k: nat): Byte {
    e(CounterBlock(f, LowByte(k / 16 + 1)))[k % 16]
  }

  /** Section 4.3.3: the payload plus the key stream. */
  function Encrypted(e: Block -> Block, f: Frame, payload: seq<Byte>): (r: seq<Byte>)
    ensures |r| == |payload|
    ensures forall k :: 0 <= k < |payload| ==> r[k] == Xor(payload[k], StreamByte(e, f, k))
  {
    seq(|payload|, k requires 0 <= k < |payload| => Xor(payload[k], StreamByte(e, f, k)))
  }

  /** Section 4.4: B_0, which ends with the length of the message. */
  function B0(f: Frame, n: nat): Block {
    FrameBlock(Byte(0x49), f, LowByte(n))
  }

  /** The number that four bytes stand for, the lowest first. No sum overflows. */
  function Number(b0: Byte, b1: Byte, b2: Byte, b3: Byte): bv32 {
    b0.v as bv32 + 0x100 * b1.v as bv32 + 0x1_0000 * b2.v as bv32 + 0x100_0000 * b3.v as bv32
  }

  lemma NumberOfBytes(w: bv32)
    ensures var b := LittleEndian(w); w == Number(b[0], b[1], b[2], b[3])
  {
  }

  lemma BytesOfNumber(b: Word)
    ensures LittleEndian(Number(b[0], b[1], b[2], b[3])) == b
  {
    BytesOfSum(b[0].v, b[1].v, b[2].v, b[3].v);
    hide LittleEndian, Number;
    FourBytes(b);
    FourBytes(LittleEndian(Number(b[0], b[1], b[2], b[3])));
  }

  lemma FourBytes(b: Word)
    ensures b == [b[0], b[1], b[2], b[3]]
  {
  }

  lemma BytesOfSum(p: bv8, q: bv8, r: bv8, s: bv8)
    ensures LittleEndian(Number(Byte(p), Byte(q), Byte(r), Byte(s))) == [Byte(p), Byte(q), Byte(r), Byte(s)]
  {
  }

  /** Byte by byte, the blocks are those of sections 4.3.3.1 and 4.4, and they are the only ones with these bytes. */
  lemma FrameBlockIff(b: Block, tag: Byte, f: Frame, last: Byte)
    ensures b == FrameBlock(tag, f, last) <==>
              && b[0] == tag && b[1] == b[2] == b[3] == b[4] == Byte(0) && b[5] == f.dir
              && Number(b[6], b[7], b[8], b[9]) == f.address && Number(b[10], b[11], b[12], b[13]) == f.counter
              && b[14] == Byte(0) && b[15] == last
  {
    var (a, c) := (LittleEndian(f.address), LittleEndian(f.counter));
    NumberOfBytes(f.address);
    NumberOfBytes(f.counter);
    hide LittleEndian, Number;
    FrameBytes(tag, f, last);
    if Number(b[6], b[7], b[8], b[9]) == f.address && Number(b[10], b[11], b[12], b[13]) == f.counter {
      BytesOfNumber([b[6], b[7], b[8], b[9]]);
      BytesOfNumber([b[10], b[11], b[12], b[13]]);
      SameBytes(b, FrameBlock(tag, f, last));
    }
  }

  lemma FrameBytes(tag: Byte, f: Frame, last: Byte)
    ensures var (b, a, c) := (FrameBlock(tag, f, last), LittleEndian(f.address), LittleEndian(f.counter));
            && b[0] == tag && b[1] == b[2] == b[3] == b[4] == b[14] == Byte(0) && b[5] == f.dir && b[15] == last
            && b[6] == a[0] && b[7] == a[1] && b[8] == a[2] && b[9] == a[3]
            && b[10] == c[0] && b[11] == c[1] && b[12] == c[2] && b[13] == c[3]
  {
    hide LittleEndian;
  }

  lemma SameBytes(b: Block, c: Block)
    ensures Same(b, c) ==> b == c
  {
    if Same(b, c) {
      SameIsEqual(b, c);
    }
  }

  /** The first key block of a frame, byte by byte. */
  lemma CounterBlockOfFrame()
    ensures CounterBlock(Frame(Byte(1), 0x04030201, 0x08070605), Byte(9)) ==
            [Byte(1), Byte(0), Byte(0), Byte(0), Byte(0), Byte(1), Byte(1), Byte(2), Byte(3), Byte(4), Byte(5), Byte(6),
             Byte(7), Byte(8), Byte(0), Byte(9)]
    ensures B0(Frame(Byte(1), 0x04030201, 0x08070605), 9) ==
            [Byte(0x49), Byte(0), Byte(0), Byte(0), Byte(0), Byte(1), Byte(1), Byte(2), Byte(3), Byte(4), Byte(5),
             Byte(6), Byte(7), Byte(8), Byte(0), Byte(9)]
  {
    LowByteOfNine();
    hide LowByte;
  }

  lemma LowByteOfNine()
    ensures LowByte(9) == Byte(9)
  {
  }

  /** Byte `k` of the key stream comes from the block with these bytes, whose last one counts from 1 and wraps. */
  lemma StreamByteIs(e: Block -> Block, f: Frame, k: nat, b: Block)
    requires b[0] == Byte(1) && b[1] == b[2] == b[3] == b[4] == b[14] == Byte(0) && b[5] == f.dir
    requires Number(b[6], b[7], b[8], b[9]) == f.address && Number(b[10], b[11], b[12], b[13]) == f.counter
    requires b[15].v as int == (k / 16 + 1) % 256
    ensures StreamByte(e, f, k) == e(b)[k % 16]
  {
    hide LowByte, Number, FrameBlock;
    LowByteIsRemainder(k / 16 + 1);
    SameValue(b[15].v, LowByte(k / 16 + 1).v);
    FrameBlockIff(b, Byte(1), f, LowByte(k / 16 + 1));
  }

  lemma SameValue(v: bv8, w: bv8)
    requires v as int == w as int
    ensures v == w
  {
  }

  /** Encrypting twice restores the payload. */
  lemma EncryptedTwice(e: Block -> Block, f: Frame, payload: seq<Byte>)
    ensures Encrypted(e, f, Encrypted(e, f, payload)) == payload
  {
    hide Xor, StreamByte;
    var once := Encrypted(e, f, payload);
    forall k | 0 <= k < |payload| ensures Encrypted(e, f, once)[k] == payload[k] {
      XorCancels(payload[k], StreamByte(e, f, k));
    }
  }

  /** No two blocks of a payload of at most 255 * 16 bytes are encrypted with the same counter block. */
  lemma CounterBlocksDiffer(f: Frame, j: nat, k: nat)
    requires j < k < 255
    ensures CounterBlock(f, LowByte(j + 1)) != CounterBlock(f, LowByte(k + 1))
  {
    hide LowByte, LittleEndian;
    assert CounterBlock(f, LowByte(j + 1))[15] == LowByte(j + 1);
    assert CounterBlock(f, LowByte(k + 1))[15] == LowByte(k + 1);
    LowByteIsRemainder(j + 1);
    LowByteIsRemainder(k + 1);
  }

  lemma {:induction false} LowByteIsRemainder(n: nat)
    ensures LowByte(n).v as int == n % 256
  {
    if n > 0 {
      LowByteIsRemainder(n - 1);
      SuccessorOf(LowByte(n - 1).v);
      SuccessorRemainder(n - 1);
    }
  }

  lemma SuccessorRemainder(n: nat)
    ensures (n + 1) % 256 == if n % 256 == 255 then 0 else n % 256 + 1
  {
  }

  lemma SuccessorOf(v: bv8)
    ensures (v + 1) as int == if v as int == 255 then 0 else v as int + 1
  {
  }

  /** Different frames never share a counter block either. */
  lemma FramesDiffer(f: Frame, g: Frame, i: Byte, j: Byte)
    requires CounterBlock(f, i) == CounterBlock(g, j)
    ensures f == g && i == j
  {
    hide LittleEndian;
    var (a, b) := (CounterBlock(f, i), CounterBlock(g, j));
    assert f.dir == a[5] && g.dir == b[5] && a[15] == i && b[15] == j;
    assert a[6] == b[6] && a[7] == b[7] && a[8] == b[8] && a[9] == b[9];
    assert a[10] == b[10] && a[11] == b[11] && a[12] == b[12] && a[13] == b[13];
    LittleEndianInjective(f.address, g.address);
    LittleEndianInjective(f.counter, g.counter);
  }

  lemma LittleEndianInjective(v: bv32, w: bv32)
    requires var (a, b) := (LittleEndian(v), LittleEndian(w));
             a[0] == b[0] && a[1] == b[1] && a[2] == b[2] && a[3] == b[3]
    ensures v == w
  {
    hide LittleEndian;
    FromBytes(v);
    FromBytes(w);
  }

  function Assemble(b: Word): bv32 {
    (b[3].v as bv32 << 24) | (b[2].v as bv32 << 16) | (b[1].v as bv32 << 8) | b[0].v as bv32
  }

  lemma FromBytes(w: bv32)
    ensures Assemble(LittleEndian(w)) == w
  {
  }

  lemma AssembledIsNumber(b: Word)
    ensures Assemble(b) == Number(b[0], b[1], b[2], b[3])
  {
    ShiftsAreProducts(b[0].v, b[1].v, b[2].v, b[3].v);
  }

  lemma ShiftsAreProducts(p: bv8, q: bv8, r: bv8, s: bv8)
    ensures (s as bv32 << 24) | (r as bv32 << 16) | (q as bv32 << 8) | p as bv32 ==
            p as bv32 + 0x100 * q as bv32 + 0x1_0000 * r as bv32 + 0x100_0000 * s as bv32
  {
  }

  // ---------- loramac-crypto.c ----------

  /** The bytes of A and B_0 that no call ever writes. */
  ghost predicate Template(b: Block, tag: Byte) {
    b[0] == tag && b[1] == b[2] == b[3] == b[4] == b[14] == Byte(0)
  }

  /** The assignments to bytes 5 to 13 and 15. */
  method FillFrame(block: array<Byte>, f: Frame, last: Byte, ghost tag: Byte)
    requires block.Length == 16 && Template(block[..], tag)
    modifies block
    ensures block[..] == FrameBlock(tag, f, last)
  {
    hide LittleEndian, Store, FrameBlock;
    FrameFilled(block[..], tag, f, last);
    block[5] := f.dir;
    StoreFour(block, 6, 7, 8, 9, LittleEndian(f.address));
    StoreFour(block, 10, 11, 12, 13, LittleEndian(f.counter));
    block[15] := last;
  }

  lemma FrameFilled(b: Block, tag: Byte, f: Frame, last: Byte)
    requires Template(b, tag)
    ensures var withAddress := Store(b[5 := f.dir], 6, 7, 8, 9, LittleEndian(f.address));
            Store(withAddress, 10, 11, 12, 13, LittleEndian(f.counter))[15 := last] == FrameBlock(tag, f, last)
  {
    hide LittleEndian, Store;
    var (a, c) := (LittleEndian(f.address), LittleEndian(f.counter));
    var s := b[5 := f.dir];
    StoreRun(s, 6, a);
    StoreRun(Splice(s, 6, a), 10, c);
    assert Quad(tag, Byte(0), Byte(0), Byte(0)) + [Byte(0), f.dir] == s[..6];
  }

  lemma StoreRun(s: seq<Byte>, at: nat, w: Word)
    requires at + 4 <= |s|
    ensures Store(s, at, at + 1, at + 2, at + 3, w) == Splice(s, at, w)
  {
  }

  lemma FrameBlockTemplate(tag: Byte, f: Frame, last: Byte)
    ensures Template(FrameBlock(tag, f, last), tag)
  {
    hide LittleEndian;
  }

  /** The assignment to the counter byte alone. */
  method SetCounter(block: array<Byte>, ghost f: Frame, ghost previous: Byte, i: Byte)
    requires block.Length == 16 && block[..] == CounterBlock(f, previous)
    modifies block
    ensures block[..] == CounterBlock(f, i)
  {
    hide LittleEndian;
    block[15] := i;
  }

  /** The inner loops: `n` bytes from `at` on are added to the key block. They may be added in place. */
  method AddStream(buffer: array<Byte>, encBuffer: array<Byte>, at: nat, n: nat, sBlock: array<Byte>)
    requires n <= sBlock.Length && at + n <= buffer.Length && at + n <= encBuffer.Length
    requires sBlock != buffer && sBlock != encBuffer
    modifies encBuffer
    ensures encBuffer[..] == Splice(old(encBuffer[..]), at, XorSeq(old(buffer[at..at + n]), sBlock[..n]))
  {
    hide Xor, Splice;
    ghost var (b, x) := (encBuffer[..], XorSeq(buffer[at..at + n], sBlock[..n]));
    var i := 0;
    while i < n
      invariant 0 <= i <= n
      invariant forall k :: 0 <= k < encBuffer.Length ==> encBuffer[k] == if at <= k < at + i then x[k - at] else b[k]
      invariant forall k :: at + i <= k < buffer.Length ==> buffer[k] == old(buffer[k])
    {
      encBuffer[at + i] := Xor(buffer[at + i], sBlock[i]);
      i := i + 1;
    }
    SplicedAt(b, at, x, encBuffer[..]);
  }

  lemma SplicedAt(s: seq<Byte>, at: nat, b: seq<Byte>, r: seq<Byte>)
    requires at + |b| <= |s| == |r|
    requires forall k :: 0 <= k < |s| ==> r[k] == if at <= k < at + |b| then b[k - at] else s[k]
    ensures r == Splice(s, at, b)
  {
  }

  // ---------- payloads of any length ----------

  /**
   The key that is on byte `j` after `n` bytes. The index has eight bits and starts again after 256 bytes; of two
   different buffers only the last addition counts, in place all of them do.
   */
  function KeyOn(e: Block -> Block, f: Frame, inPlace: bool, j: nat, n: nat): Byte {
    if n == 0 then Byte(0)
    else if (n - 1) % 256 != j then KeyOn(e, f, inPlace, j, n - 1)
    else if inPlace then Xor(KeyOn(e, f, inPlace, j, n - 1), StreamByte(e, f, n - 1))
    else StreamByte(e, f, n - 1)
  }

  /** The first `done` bytes of the payload have been encrypted, up to byte 255; nothing else has changed. */
  ghost predicate EncryptedTo(e: Block -> Block, f: Frame, inPlace: bool, plain: seq<Byte>, before: seq<Byte>,
                              after: seq<Byte>, done: nat) {
    && done <= |plain| <= |before| == |after|
    && forall j :: 0 <= j < |after| ==>
         after[j] == if j < done && j < 256 then Xor(plain[j], KeyOn(e, f, inPlace, j, done)) else before[j]
  }

  /** Where the next bytes of the payload are taken from. */
  ghost predicate Source(inPlace: bool, plain: seq<Byte>, before: seq<Byte>, buffer: seq<Byte>, after: seq<Byte>) {
    && |plain| <= |buffer|
    && if inPlace then buffer == after && plain <= before else plain <= buffer
  }

  lemma StreamBytesOfBlock(e: Block -> Block, f: Frame, done: nat, k: nat)
    requires done % 16 == 0 && done <= k < done + 16
    ensures StreamByte(e, f, k) == e(CounterBlock(f, LowByte(done / 16 + 1)))[k - done]
  {
    assert k / 16 == done / 16 && k % 16 == k - done;
  }

  lemma WrappedIndex(done: nat, i: nat)
    requires done % 16 == 0 && i < 16
    ensures (done + i) % 256 == done % 256 + i < 256 && (done < 256 ==> done % 256 == done)
  {
    var (d, q, r) := (done / 16, done / 256, done % 256);
    assert r == 16 * (d - 16 * q);
    assert r <= 240;
    assert done + i == 256 * q + (r + i);
  }

  /** What one block adds. */
  lemma {:induction false} KeyOnBlock(e: Block -> Block, f: Frame, inPlace: bool, j: nat, done: nat, n: nat)
    requires done % 16 == 0 && n <= 16
    ensures var (at, key) := (done % 256, KeyOn(e, f, inPlace, j, done));
            KeyOn(e, f, inPlace, j, done + n) ==
              if !(at <= j < at + n) then key
              else if inPlace then Xor(key, StreamByte(e, f, done + j - at)) else StreamByte(e, f, done + j - at)
  {
    hide Xor, StreamByte;
    if n > 0 {
      KeyOnBlock(e, f, inPlace, j, done, n - 1);
      WrappedIndex(done, n - 1);
    }
  }

  lemma {:induction false} NoKeyYet(e: Block -> Block, f: Frame, inPlace: bool, j: nat, n: nat)
    requires n <= j
    ensures KeyOn(e, f, inPlace, j, n) == Byte(0)
  {
    if n > 0 {
      NoKeyYet(e, f, inPlace, j, n - 1);
    }
  }

  /** The byte written at `j`: `p` is the byte of the payload, `was` what stands there, `source` what is read. */
  lemma WrittenByte(e: Block -> Block, f: Frame, inPlace: bool, j: nat, done: nat, n: nat, p: Byte, was: Byte,
                    source: Byte)
    requires done % 16 == 0 && n <= 16 && done % 256 <= j < done % 256 + n
    requires source == (if inPlace then was else p)
    requires inPlace ==> was == if j < done then Xor(p, KeyOn(e, f, inPlace, j, done)) else p
    ensures Xor(source, StreamByte(e, f, done + j - done % 256)) == Xor(p, KeyOn(e, f, inPlace, j, done + n))
  {
    var key := StreamByte(e, f, done + j - done % 256);
    KeyOnBlock(e, f, inPlace, j, done, n);
    hide Xor, StreamByte, KeyOn;
    if inPlace {
      XorRegroups(p, KeyOn(e, f, inPlace, j, done), key);
      if j >= done {
        NoKeyYet(e, f, inPlace, j, done);
        XorZero(key);
      }
    }
  }

  /** Outside the block nothing happens. */
  lemma OtherByte(e: Block -> Block, f: Frame, inPlace: bool, j: nat, done: nat, n: nat)
    requires done % 16 == 0 && n <= 16 && !(done % 256 <= j < done % 256 + n)
    ensures KeyOn(e, f, inPlace, j, done + n) == KeyOn(e, f, inPlace, j, done)
    ensures j < 256 ==> (j < done + n <==> j < done)
  {
    KeyOnBlock(e, f, inPlace, j, done, n);
    hide Xor, StreamByte, KeyOn;
    WrappedIndex(done, 0);
  }

  /** One byte of the target, before and after a block of the key stream. */
  lemma ByteStep(e: Block -> Block, f: Frame, inPlace: bool, j: nat, done: nat, n: nat, p: Byte, initial: Byte,
                 was: Byte, source: Byte, s: Block, now: Byte)
    requires done % 16 == 0 && n <= 16 && s == e(CounterBlock(f, LowByte(done / 16 + 1)))
    requires was == if j < done && j < 256 then Xor(p, KeyOn(e, f, inPlace, j, done)) else initial
    requires j < done + n ==> (inPlace ==> initial == p) && source == if inPlace then was else p
    requires var at := done % 256; now == if at <= j < at + n then Xor(source, s[j - at]) else was
    ensures now == if j < done + n && j < 256 then Xor(p, KeyOn(e, f, inPlace, j, done + n)) else initial
  {
    hide Xor, StreamByte, KeyOn, CounterBlock, LowByte;
    var at := done % 256;
    if at <= j < at + n {
      WrappedIndex(done, j - at);
      StreamBytesOfBlock(e, f, done, done + j - at);
      WrittenByte(e, f, inPlace, j, done, n, p, was, source);
    } else {
      OtherByte(e, f, inPlace, j, done, n);
    }
  }

  /** Behind the payload nothing is written. */
  lemma Beyond(done: nat, n: nat, j: nat)
    requires done + n <= j
    ensures !(done % 256 <= j < done % 256 + n)
  {
    assert done % 256 <= done;
  }

  lemma SplicedByte(after: seq<Byte>, at: nat, x: seq<Byte>, j: nat)
    requires at + |x| <= |after| && j < |after|
    ensures Splice(after, at, x)[j] == if at <= j < at + |x| then x[j - at] else after[j]
  {
  }

  lemma EncryptedStep(e: Block -> Block, f: Frame, inPlace: bool, plain: seq<Byte>, before: seq<Byte>,
                      buffer: seq<Byte>, after: seq<Byte>, done: nat, n: nat, s: Block, after': seq<Byte>)
    requires EncryptedTo(e, f, inPlace, plain, before, after, done) && Source(inPlace, plain, before, buffer, after)
    requires done % 16 == 0 && n <= 16 && done + n <= |plain|
    requires s == e(CounterBlock(f, LowByte(done / 16 + 1)))
    requires var at := done % 256;
             at + n <= |buffer| && at + n <= |after| && after' == Splice(after, at, XorSeq(buffer[at..at + n], s[..n]))
    ensures EncryptedTo(e, f, inPlace, plain, before, after', done + n)
  {
    hide Xor, StreamByte, KeyOn, CounterBlock, LowByte, Splice, XorSeq;
    var at := done % 256;
    var x := XorSeq(buffer[at..at + n], s[..n]);
    forall j | 0 <= j < |after'|
      ensures after'[j] ==
              if j < done + n && j < 256 then Xor(plain[j], KeyOn(e, f, inPlace, j, done + n)) else before[j]
    {
      SplicedByte(after, at, x, j);
      if j < |plain| {
        ByteStep(e, f, inPlace, j, done, n, plain[j], before[j], after[j], buffer[j], s, after'[j]);
      } else {
        Beyond(done, n, j);
      }
    }
  }

  lemma NextIndex(done: nat)
    requires done % 16 == 0
    ensures (done + 16) % 16 == 0 && (done + 16) / 16 == done / 16 + 1 && (done + 16) % 256 == (done % 256 + 16) % 256
  {
  }

  lemma NothingEncrypted(e: Block -> Block, f: Frame, inPlace: bool, plain: seq<Byte>, before: seq<Byte>)
    requires |plain| <= |before|
    ensures EncryptedTo(e, f, inPlace, plain, before, before, 0)
  {
  }

  /** Up to 256 bytes there is one key for each byte. */
  lemma {:induction false} OneKey(e: Block -> Block, f: Frame, inPlace: bool, j: nat, n: nat)
    requires j < n <= 256
    ensures KeyOn(e, f, inPlace, j, n) == StreamByte(e, f, j)
  {
    hide StreamByte, Xor;
    if j == n - 1 {
      NoKeyYet(e, f, inPlace, j, n - 1);
      XorZero(StreamByte(e, f, j));
    } else {
      OneKey(e, f, inPlace, j, n - 1);
    }
  }

  /** Up to 256 bytes the payload is encrypted as the standard says. */
  lemma EncryptedAll(e: Block -> Block, f: Frame, inPlace: bool, plain: seq<Byte>, before: seq<Byte>, after: seq<Byte>)
    requires EncryptedTo(e, f, inPlace, plain, before, after, |plain|) && |plain| <= 256
    ensures after == Encrypted(e, f, plain) + before[|plain|..]
  {
    hide Xor, StreamByte, KeyOn;
    forall j | 0 <= j < |plain|
      ensures after[j] == Encrypted(e, f, plain)[j]
    {
      OneKey(e, f, inPlace, j, |plain|);
    }
  }

  /**
   Encrypting again in the same way, in place or not, restores the bytes up to 255; the others are what stood in the
   target. So the payload comes back, whatever stood there, exactly if it has at most 256 bytes or is kept in place.
   */
  lemma RestoredIff(e: Block -> Block, f: Frame, inPlace: bool, plain: seq<Byte>, before: seq<Byte>, once: seq<Byte>,
                    target: seq<Byte>, twice: seq<Byte>)
    requires EncryptedTo(e, f, inPlace, plain, before, once, |plain|)
    requires EncryptedTo(e, f, inPlace, once[..|plain|], target, twice, |plain|)
    requires inPlace ==> plain <= before && target == once
    ensures plain <= twice <==> inPlace || |plain| <= 256 || plain[256..] == target[256..|plain|]
  {
    hide Xor, KeyOn;
    var n := |plain|;
    forall j | 0 <= j < n
      ensures twice[j] == if j < 256 || inPlace then plain[j] else target[j]
    {
      XorCancels(plain[j], KeyOn(e, f, inPlace, j, n));
    }
    if n > 256 {
      assert plain[256..] == target[256..n] <==> forall j :: 256 <= j < n ==> plain[j] == target[j] by {
        if plain[256..] == target[256..n] {
          forall j | 256 <= j < n
            ensures plain[j] == target[j]
          {
            assert plain[256..][j - 256] == target[256..n][j - 256];
          }
        }
      }
    }
    assert plain <= twice <==> forall j :: 0 <= j < n ==> plain[j] == twice[j];
  }

  /** A payload of 257 zeros, decrypted into a buffer whose last byte is 1, does not come back. */
  lemma LongPayloadIsLost(e: Block -> Block, f: Frame, once: seq<Byte>, twice: seq<Byte>)
    requires EncryptedTo(e, f, false, Zeros(257), Zeros(257), once, 257)
    requires EncryptedTo(e, f, false, once[..257], Zeros(257)[256 := Byte(1)], twice, 257)
    ensures !(Zeros(257) <= twice)
  {
    var (plain, target) := (Zeros(257), Zeros(257)[256 := Byte(1)]);
    hide EncryptedTo;
    RestoredIff(e, f, false, plain, plain, once, target, twice);
    assert plain[256..][0] == Byte(0) && target[256..257][0] == Byte(1);
  }

  /** The file's static variables. */
  class CryptoState {
    const micBlockB0: array<Byte>
    const mic: array<Byte>
    const aBlock: array<Byte>
    const sBlock: array<Byte>
    const aesContext: AesContext
    const cmacCtx: CmacContext

    constructor ()
      ensures Valid()
    {
      micBlockB0 := new Byte[16](i => if i == 0 then Byte(0x49) else Byte(0));
      mic := new Byte[16](_ => Byte(0));
      aBlock := new Byte[16](i => if i == 0 then Byte(0x01) else Byte(0));
      sBlock := new Byte[16](_ => Byte(0));
      aesContext := new AesContext();
      cmacCtx := new CmacContext();
    }

    ghost predicate Valid()
      reads this, aesContext, cmacCtx, cmacCtx.rijndael, aBlock, micBlockB0
    {
      && aesContext.Valid() && cmacCtx.Valid() && aesContext != cmacCtx.rijndael
      && micBlockB0.Length == mic.Length == aBlock.Length == sBlock.Length == 16
      && micBlockB0 !in {mic, aBlock, sBlock, aesContext.ksch, cmacCtx.x, cmacCtx.mLast, cmacCtx.rijndael.ksch}
      && aBlock !in {mic, sBlock, aesContext.ksch, cmacCtx.x, cmacCtx.mLast, cmacCtx.rijndael.ksch}
      && sBlock != aesContext.ksch && mic !in {cmacCtx.x, cmacCtx.mLast, cmacCtx.rijndael.ksch}
      && Template(aBlock[..], Byte(0x01)) && Template(micBlockB0[..], Byte(0x49))
    }

    /** An array of the caller. */
    predicate Outside(a: array<Byte>)
      reads this, aesContext, cmacCtx, cmacCtx.rijndael
    {
      a !in {micBlockB0, mic, aBlock, sBlock, aesContext.ksch, cmacCtx.x, cmacCtx.mLast, cmacCtx.rijndael.ksch}
    }

    /** The key block for counter `ctr`. */
    method NextStreamBlock(ctr: nat, ghost f: Frame, ghost last: Byte)
      requires Valid() && aesContext.rnd > 0 && aBlock[..] == CounterBlock(f, last)
      modifies aBlock, sBlock
      ensures Valid() && aBlock[..] == CounterBlock(f, LowByte(ctr))
              && sBlock[..] == aesContext.E(CounterBlock(f, LowByte(ctr)))
    {
      hide Cipher, LowByte, LittleEndian;
      FrameBlockTemplate(Byte(0x01), f, LowByte(ctr));
      SetCounter(aBlock, f, last, LowByte(ctr));
      EncryptWhole(aBlock, sBlock, aesContext);
    }

    /** What holds after `done` bytes of the payload `plain`. */
    ghost predicate Progress(e: Block -> Block, f: Frame, plain: seq<Byte>, before: seq<Byte>, buffer: array<Byte>,
                             encBuffer: array<Byte>, done: nat)
      reads buffer, encBuffer
    {
      && EncryptedTo(e, f, buffer == encBuffer, plain, before, encBuffer[..], done)
      && Source(buffer == encBuffer, plain, before, buffer[..], encBuffer[..])
    }

    /** One block of the key stream, added to `n` bytes of the payload. */
    method StreamStep(buffer: array<Byte>, encBuffer: array<Byte>, bufferIndex: uint8, ctr: nat, n: nat,
                      ghost done: nat, ghost f: Frame, ghost last: Byte, ghost plain: seq<Byte>,
                      ghost before: seq<Byte>)
      requires Valid() && aesContext.rnd > 0 && Outside(buffer) && Outside(encBuffer)
      requires done % 16 == 0 && 0 < n <= 16 && done + n <= |plain| && |plain| <= encBuffer.Length
               && |plain| <= buffer.Length
      requires bufferIndex == done % 256 && ctr == done / 16 + 1
      requires aBlock[..] == CounterBlock(f, last)
      requires Progress(CipherWith(aesContext.RoundKeys(), aesContext.rnd), f, plain, before, buffer, encBuffer, done)
      modifies aBlock, sBlock, encBuffer
      ensures Valid() && aBlock[..] == CounterBlock(f, LowByte(ctr))
      ensures Progress(CipherWith(aesContext.RoundKeys(), aesContext.rnd), f, plain, before, buffer, encBuffer,
                       done + n)
    {
      hide Cipher, LowByte, CounterBlock, EncryptedTo, Splice;
      ghost var e, buf, was := CipherWith(aesContext.RoundKeys(), aesContext.rnd), buffer[..], encBuffer[..];
      NextStreamBlock(ctr, f, last);
      assert buffer[..] == buf && encBuffer[..] == was;
      AddStream(buffer, encBuffer, bufferIndex, n, sBlock);
      assert buf[bufferIndex..bufferIndex + n] == old(buffer[bufferIndex..bufferIndex + n]);
      EncryptedStep(e, f, buffer == encBuffer, plain, before, buf, was, done, n, sBlock[..], encBuffer[..]);
    }

    /** Sets up the AES context and the frame fields of A. */
    method Prepare(key: array<Byte>, f: Frame) returns (ghost last: Byte)
      requires Valid() && key.Length >= 16 && Outside(key)
      modifies aesContext, aesContext.ksch, aBlock
      ensures Valid() && aesContext.rnd > 0
              && CipherWith(aesContext.RoundKeys(), aesContext.rnd) == AesUnder(old(key[..16]))
      ensures aBlock[..] == CounterBlock(f, last)
    {
      hide KeyExpansion, LittleEndian;
      ghost var k := key[..16];
      forall i | 0 <= i < SCHEDULE_SIZE {
        aesContext.ksch[i] := Byte(0);
      }
      assert key[..16] == k;
      var status := AesSetKey(key, 16, aesContext);
      assert aesContext.RoundKeys() == KeyExpansion(k) && aesContext.rnd == Rounds(16);
      last := aBlock[15];
      FrameBlockTemplate(Byte(0x01), f, last);
      FillFrame(aBlock, f, aBlock[15], Byte(0x01));
      assert aesContext.RoundKeys() == KeyExpansion(k) && aesContext.rnd == Rounds(16);
      assert CipherWith(aesContext.RoundKeys(), aesContext.rnd) == AesUnder(k);
    }

    /** The loop over the whole blocks, and the last incomplete block. */
    method StreamBlocks(buffer: array<Byte>, size: nat, encBuffer: array<Byte>, ghost f: Frame, ghost last0: Byte,
                        ghost plain: seq<Byte>, ghost before: seq<Byte>)
      requires Valid() && aesContext.rnd > 0 && Outside(buffer) && Outside(encBuffer)
      requires size == |plain| <= buffer.Length && size <= encBuffer.Length && aBlock[..] == CounterBlock(f, last0)
      requires Progress(CipherWith(aesContext.RoundKeys(), aesContext.rnd), f, plain, before, buffer, encBuffer, 0)
      modifies aBlock, sBlock, encBuffer
      ensures Valid()
      ensures Progress(CipherWith(aesContext.RoundKeys(), aesContext.rnd), f, plain, before, buffer, encBuffer, size)
    {
      hide Cipher, LowByte, CounterBlock, Progress;
      ghost var last, done := last0, 0;
      var left, bufferIndex: uint8, ctr := size, 0, 1;
      while left >= 16
        invariant Valid() && aesContext.rnd > 0 && aBlock[..] == CounterBlock(f, last)
        invariant done % 16 == 0 && left == size - done >= 0 && ctr == done / 16 + 1 && bufferIndex == done % 256
        invariant Progress(CipherWith(aesContext.RoundKeys(), aesContext.rnd), f, plain, before, buffer, encBuffer,
                           done)
      {
        StreamStep(buffer, encBuffer, bufferIndex, ctr, 16, done, f, last, plain, before);
        NextIndex(done);
        last, done := LowByte(ctr), done + 16;
        ctr := ctr + 1;
        left := left - 16;
        bufferIndex := (bufferIndex + 16) % 256;
      }
      if left > 0 {
        StreamStep(buffer, encBuffer, bufferIndex, ctr, left, done, f, last, plain, before);
      }
    }

    /**
     LoRaMacPayloadEncrypt. The buffer index has eight bits: up to 256 bytes are encrypted as the standard says, in
     place if the two buffers are the same; of a longer payload the first 256 bytes get more than one key.
     */
    method PayloadEncrypt(buffer: array<Byte>, size: nat, key: array<Byte>, f: Frame, encBuffer: array<Byte>)
      requires Valid() && Outside(buffer) && Outside(encBuffer) && Outside(key)
      requires size < 0x1_0000 && size <= buffer.Length && size <= encBuffer.Length && key.Length >= 16
      modifies aesContext, aesContext.ksch, aBlock, sBlock, encBuffer
      ensures Valid()
      ensures EncryptedTo(AesUnder(old(key[..16])), f, buffer == encBuffer, old(buffer[..size]), old(encBuffer[..]),
                          encBuffer[..], size)
      ensures size <= 256 ==>
                encBuffer[..] == Encrypted(AesUnder(old(key[..16])), f, old(buffer[..size])) + old(encBuffer[size..])
    {
      hide Xor, Cipher, LowByte, LittleEndian, Encrypted, KeyExpansion, CounterBlock, StreamByte, EncryptedTo;
      ghost var e, plain, before := AesUnder(key[..16]), buffer[..size], encBuffer[..];
      ghost var inPlace := buffer == encBuffer;
      NothingEncrypted(e, f, inPlace, plain, before);
      ghost var last := Prepare(key, f);
      StreamBlocks(buffer, size, encBuffer, f, last, plain, before);
      if size <= 256 {
        EncryptedAll(e, f, inPlace, plain, before, encBuffer[..]);
      }
    }

    /** LoRaMacPayloadDecrypt is the same operation. */
    method PayloadDecrypt(buffer: array<Byte>, size: nat, key: array<Byte>, f: Frame, decBuffer: array<Byte>)
      requires Valid() && Outside(buffer) && Outside(decBuffer) && Outside(key)
      requires size < 0x1_0000 && size <= buffer.Length && size <= decBuffer.Length && key.Length >= 16
      modifies aesContext, aesContext.ksch, aBlock, sBlock, decBuffer
      ensures Valid()
      ensures EncryptedTo(AesUnder(old(key[..16])), f, buffer == decBuffer, old(buffer[..size]), old(decBuffer[..]),
                          decBuffer[..], size)
      ensures size <= 256 ==>
                forall plain :: old(buffer[..size]) == Encrypted(AesUnder(old(key[..16])), f, plain)
                                ==> decBuffer[..] == plain + old(decBuffer[size..])
    {
      hide Xor, Cipher, KeyExpansion, CounterBlock, Encrypted, EncryptedTo;
      ghost var e, cipher := AesUnder(key[..16]), buffer[..size];
      PayloadEncrypt(buffer, size, key, f, decBuffer);
      if size <= 256 {
        forall plain | cipher == Encrypted(e, f, plain) ensures Encrypted(e, f, cipher) == plain {
          EncryptedTwice(e, f, plain);
        }
      }
    }

    /** LoRaMacComputeMic: the message is at most 255 bytes, of a longer one only `size & 0xFF` bytes count. */
    method ComputeMic(buffer: array<Byte>, size: nat, key: array<Byte>, f: Frame) returns (result: bv32)
      requires Valid() && Outside(buffer) && Outside(key)
      requires size < 0x1_0000 && size <= buffer.Length && key.Length >= 16
      modifies micBlockB0, mic, cmacCtx, cmacCtx.x, cmacCtx.mLast, cmacCtx.rijndael, cmacCtx.rijndael.ksch
      ensures Valid()
      ensures var mac := Mac(AesUnder(old(key[..16])), B0(f, size) + old(buffer[..size % 256]));
              result == Number(mac[0], mac[1], mac[2], mac[3])
    {
      hide Cipher, KeyExpansion, Number, Mac, LowByte, Assemble, Absorbed, FrameBlock;
      ghost var k := key[..16];
      FrameBlockTemplate(Byte(0x49), f, LowByte(size));
      FillFrame(micBlockB0, f, LowByte(size), Byte(0x49));
      cmacCtx.MacOfTwo(key, micBlockB0, buffer, size % 256, mic);
      result := Assemble(mic[..4]);
      AssembledIsNumber(mic[..4]);
    }
  }
}
