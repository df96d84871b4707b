/** cmac.c: AES-CMAC (RFC 4493) computed from a message that arrives in pieces. */
module Cmac {
  import opened Buffers
  import opened Bytes
  import opened Fips197
  import opened Aes

  // ---------- RFC 4493 ----------

  /** Section 2.3: a left shift of the whole block by one bit. */
  function ShiftLeft(b: Block): (r: Block)
    ensures forall i :: 0 <= i < 16 ==> r[i] == ShiftByte(b[i], if i == 15 then Byte(0) else b[i + 1])
  {
    seq(16, i requires 0 <= i < 16 => ShiftByte(b[i], if i == 15 then Byte(0) else b[i + 1]))
  }

  /** One byte of the shift takes in the top bit of the byte after it. */
  function ShiftByte(x: Byte, next: Byte): Byte {
    Byte((x.v << 1) | (next.v >> 7))
  }

  predicate TopBit(b: Block) {
    b[0].v & 0x80 != 0
  }

  const R_B: Block := Zeros(15) + [Byte(0x87)]

  /** Steps 2 and 3 of Generate_Subkey: doubling in GF(2^128). */
  function Double(b: Block): Block {
    if TopBit(b) then XorSeq(ShiftLeft(b), R_B) else ShiftLeft(b)
  }

  function K1(e: Block -> Block): Block {
    Double(e(Zeros(16)))
  }

  function K2(e: Block -> Block): Block {
    Double(K1(e))
  }

  /** padding(x): a one bit and then zeros. */
  function Padded(tail: seq<Byte>): Block
    requires |tail| < 16
  {
    tail + [Byte(0x80)] + Zeros(15 - |tail|)
  }

  /** The chaining value after the whole blocks of `m` (step 6 of AES-CMAC). */
  function Absorbed(e: Block -> Block, m: seq<Byte>): Block
    requires |m| % 16 == 0
    decreases |m|
  {
    if m == [] then Zeros(16)
    else e(XorSeq(Absorbed(e, m[..|m| - 16]), m[|m| - 16..]))
  }

  /** M_last of step 4, from the last block of the message. */
  function LastBlock(e: Block -> Block, tail: seq<Byte>): Block
    requires |tail| <= 16
  {
    if |tail| == 16 then XorSeq(tail, K1(e)) else XorSeq(Padded(tail), K2(e))
  }

  /** Where the last block starts: an empty message has one empty block, any other a non-empty one. */
  function LastStart(n: nat): (s: nat)
    ensures s <= n <= s + 16 && s % 16 == 0
    ensures n > 0 ==> s < n
  {
    if n == 0 then 0 else (n - 1) / 16 * 16
  }

  /** Section 2.4. */
  function Mac(e: Block -> Block, m: seq<Byte>): Block {
    var s := LastStart(|m|);
    e(XorSeq(Absorbed(e, m[..s]), LastBlock(e, m[s..])))
  }

  /** Bit `j` of a byte, from the most significant one. */
  predicate BitOf(x: Byte, j: nat)
    requires j < 8
  {
    x.v & (0x80 >> j) != 0
  }

  /** Bit `k` of a block, from the most significant one. */
  predicate Bit(b: Block, k: nat)
    requires k < 128
  {
    BitOf(b[k / 8], k % 8)
  }

  /** ShiftLeft moves every bit of the block up by one place. */
  lemma ShiftLeftMovesBits(b: Block, k: nat)
    requires k < 128
    ensures Bit(ShiftLeft(b), k) == (k < 127 && Bit(b, k + 1))
  {
    hide BitOf, ShiftByte;
    var i := k / 8;
    if k % 8 == 7 {
      assert k < 127 ==> (k + 1) / 8 == i + 1 && (k + 1) % 8 == 0;
    } else {
      assert (k + 1) / 8 == i && (k + 1) % 8 == k % 8 + 1;
    }
    ShiftByteMovesBits(b[i], if i == 15 then Byte(0) else b[i + 1], k % 8);
    ZeroByteHasNoBits();
  }

  lemma ShiftByteMovesBits(x: Byte, next: Byte, j: nat)
    requires j < 8
    ensures BitOf(ShiftByte(x, next), j) == if j == 7 then BitOf(next, 0) else BitOf(x, j + 1)
  {
    if j == 0 {
    } else if j == 1 {
    } else if j == 2 {
    } else if j == 3 {
    } else if j == 4 {
    } else if j == 5 {
    } else if j == 6 {
    } else {
    }
  }

  lemma ZeroByteHasNoBits()
    ensures !BitOf(Byte(0), 0)
  {
  }

  // ---------- the streaming invariant ----------

  /**
   After the message `m` has arrived, `x` is the chain over all blocks before the held one and the
   first `n` bytes of `last` are the held one. Nothing is held only while the message is empty.
   */
  ghost predicate Streams(e: Block -> Block, m: seq<Byte>, x: Block, last: Block, n: nat) {
    && n <= 16 && n <= |m| && (n == 0 <==> m == []) && (|m| - n) % 16 == 0
    && x == Absorbed(e, m[..|m| - n])
    && last[..n] == m[|m| - n..]
  }

  lemma AbsorbOne(e: Block -> Block, m: seq<Byte>, p: nat)
    requires p % 16 == 0 && p + 16 <= |m|
    ensures Absorbed(e, m[..p + 16]) == e(XorSeq(Absorbed(e, m[..p]), m[p..p + 16]))
  {
    assert m[..p + 16][..p] == m[..p] && m[..p + 16][p..] == m[p..p + 16];
  }

  lemma HeldBounds(e: Block -> Block, m: seq<Byte>, x: Block, last: Block, n: nat)
    requires Streams(e, m, x, last, n)
    ensures n <= 16 && (n == 0 ==> m == [] && x == Absorbed(e, m))
  {
    assert m == [] ==> m[..0] == m;
  }

  lemma SlicesJoin(s: seq<Byte>, a: nat, b: nat, c: nat)
    requires a <= b <= c <= |s|
    ensures s[a..b] + s[b..c] == s[a..c]
  {
  }

  /** The held block grows. */
  lemma HeldMore(e: Block -> Block, m: seq<Byte>, piece: seq<Byte>, x: Block, last: Block, n: nat)
    requires Streams(e, m, x, last, n) && n > 0 && n + |piece| <= 16
    ensures Streams(e, m + piece, x, Splice(last, n, piece), n + |piece|)
  {
    hide Absorbed;
    var total := m + piece;
    var start := |m| - n;
    assert total[..start] == m[..start] && total[start..] == m[start..] + piece;
  }

  lemma OneMore(e: Block -> Block, m: seq<Byte>, block: Block)
    requires |m| % 16 == 0
    ensures Absorbed(e, m + block) == e(XorSeq(Absorbed(e, m), block))
  {
    hide Absorbed, XorSeq;
    var total := m + block;
    assert total[..|total|] == total && total[..|m|] == m && total[|m|..|m| + 16] == block;
    AbsorbOne(e, total, |m|);
  }

  /** A last piece after whole blocks is held. */
  lemma HeldLast(e: Block -> Block, m: seq<Byte>, piece: seq<Byte>, x: Block, last: Block)
    requires |m| % 16 == 0 && x == Absorbed(e, m) && |piece| <= 16 && (piece == [] ==> m == [])
    ensures Streams(e, m + piece, x, Splice(last, 0, piece), |piece|)
  {
    hide Absorbed;
    var total := m + piece;
    assert total[..|total| - |piece|] == m && total[|total| - |piece|..] == piece;
  }

  lemma StreamsGivesMac(e: Block -> Block, m: seq<Byte>, x: Block, last: Block, n: nat)
    requires Streams(e, m, x, last, n)
    ensures Mac(e, m) == e(XorSeq(x, LastBlock(e, last[..n])))
  {
    hide LastBlock, XorSeq, Absorbed;
    assert LastStart(|m|) == |m| - n;
  }

  /** The message that was cut into pieces. */
  function Joined(pieces: seq<seq<Byte>>): seq<Byte> {
    if pieces == [] then [] else Joined(pieces[..|pieces| - 1]) + pieces[|pieces| - 1]
  }

  // ---------- cmac.c ----------

  class CmacContext {
    const rijndael: AesContext
    const x: array<Byte>
    const mLast: array<Byte>
    var mN: nat
    /** What Update has been given since Init. */
    ghost var message: seq<Byte>

    constructor ()
      ensures Valid() && fresh(rijndael) && fresh(rijndael.ksch) && fresh(x) && fresh(mLast)
    {
      rijndael := new AesContext();
      x := new Byte[16];
      mLast := new Byte[16];
      mN := 0;
      message := [];
    }

    ghost predicate Valid()
      reads this, rijndael
    {
      && rijndael.Valid() && x.Length == mLast.Length == 16
      && x != mLast && x != rijndael.ksch && mLast != rijndael.ksch
    }

    ghost function E(): Block -> Block
      requires Valid() && rijndael.rnd > 0
      reads this, rijndael, rijndael.ksch
    {
      CipherWith(rijndael.RoundKeys(), rijndael.rnd)
    }

    ghost predicate Streaming()
      requires Valid()
      reads this, rijndael, rijndael.ksch, x, mLast
    {
      rijndael.rnd > 0 && Streams(E(), message, x[..], mLast[..], mN)
    }

    method Init()
      requires Valid()
      modifies this, x, rijndael.ksch
      ensures Valid() && message == [] && mN == 0 && x[..] == Zeros(16)
      ensures rijndael.ksch[..] == Zeros(SCHEDULE_SIZE)
    {
      forall i | 0 <= i < 16 {
        x[i] := Byte(0);
      }
      mN := 0;
      forall i | 0 <= i < SCHEDULE_SIZE {
        rijndael.ksch[i] := Byte(0);
      }
      message := [];
    }

    method SetKey(key: array<Byte>)
      requires Valid() && key.Length >= 16 && key != rijndael.ksch
      modifies rijndael, rijndael.ksch
      ensures Valid() && rijndael.rnd > 0 && E() == AesUnder(key[..16])
      ensures message == [] && mN == 0 && x[..] == Zeros(16) ==> Streaming()
    {
      hide Cipher, KeyExpansion;
      var status := AesSetKey(key, 16, rijndael);
    }

    /** The held block is complete and not the last one: x is replaced by the encryption of x + M_last. */
    method AbsorbHeld()
      requires Valid() && rijndael.rnd > 0
      modifies x
      ensures x[..] == E()(XorSeq(old(x[..]), mLast[..]))
    {
      hide XorSeq, Cipher;
      XorWhole(x, mLast);
      EncryptWhole(x, x, rijndael);
    }

    /** Nothing is held: `x` is the chain over the whole message. */
    ghost predicate Aligned()
      requires Valid()
      reads this, rijndael, rijndael.ksch, x
    {
      rijndael.rnd > 0 && |message| % 16 == 0 && x[..] == Absorbed(E(), message)
    }

    /** A block of the data is chained in; the encryption goes through a copy. */
    method Chain(data: array<Byte>, at: nat)
      requires Valid() && rijndael.rnd > 0 && at + 16 <= data.Length && data != x
      modifies x
      ensures x[..] == E()(XorSeq(old(x[..]), data[at..at + 16]))
    {
      hide XorSeq, Cipher, Splice;
      assert x[..] == x[0..16];
      SpliceWhole(x[..], XorSeq(x[..], data[at..at + 16]));
      XorBlock(x, 0, data, at);
      var copy := new Byte[16];
      CopyWhole(copy, x);
      EncryptWhole(copy, copy, rijndael);
      CopyWhole(x, copy);
    }

    /** A block of the data that is not the last one. */
    method AbsorbData(data: array<Byte>, at: nat)
      requires Valid() && Aligned() && at + 16 <= data.Length && data != x
      modifies x, this`message
      ensures Valid() && Aligned() && message == old(message) + data[at..at + 16]
    {
      hide XorSeq, Cipher, CipherWith, Absorbed;
      OneMore(E(), message, data[at..at + 16]);
      Chain(data, at);
      message := message + data[at..at + 16];
    }

    /** The possible last block is held back. */
    method Hold(data: array<Byte>, at: nat, left: nat)
      requires Valid() && Aligned() && left <= 16 && at + left <= data.Length && data != x && data != mLast
      requires left == 0 ==> message == []
      modifies this`message, this`mN, mLast
      ensures Valid() && Streaming() && message == old(message) + data[at..at + left]
    {
      hide Cipher, Absorbed, CipherWith, Streams;
      HeldLast(E(), message, data[at..at + left], x[..], mLast[..]);
      BlockCopy(mLast, 0, data, at, left);
      mN := left;
      message := message + data[at..at + left];
    }

    /** The first part of Update: the held block is filled up from the new data. */
    method TopUp(data: array<Byte>, len: nat) returns (mlen: nat)
      requires Valid() && Streaming() && mN > 0 && len <= data.Length && data != x && data != mLast
      modifies this, mLast
      ensures Valid() && Streaming()
      ensures mlen == (if 16 - old(mN) < len then 16 - old(mN) else len) && mN == old(mN) + mlen
      ensures message == old(message) + data[..mlen]
    {
      hide Cipher, Absorbed, CipherWith, Streams;
      HeldBounds(E(), message, x[..], mLast[..], mN);
      mlen := if 16 - mN < len then 16 - mN else len;
      HeldMore(E(), message, data[..mlen], x[..], mLast[..], mN);
      BlockCopy(mLast, mN, data, 0, mlen);
      mN := mN + mlen;
      message := message + data[..mlen];
    }

    /** The loop of Update: whole blocks are absorbed while more than one is left. */
    method AbsorbBlocks(data: array<Byte>, start: nat, end: nat) returns (at: nat)
      requires Valid() && Aligned() && start <= end <= data.Length && data != x && data != mLast
      requires start == end ==> message == []
      modifies this, x
      ensures start <= at <= end <= at + 16 && (at == end ==> message == [])
      ensures Valid() && Aligned() && message == old(message) + data[start..at]
    {
      hide Absorbed, CipherWith, Cipher;
      at := start;
      while end - at > 16
        invariant Valid() && Aligned() && start <= at <= end && (at == end ==> message == [])
        invariant message == old(message) + data[start..at]
      {
        AbsorbData(data, at);
        assert data[start..at] + data[at..at + 16] == data[start..at + 16];
        at := at + 16;
      }
    }

    /** The rest of Update: all but the last block of the remaining data is absorbed, the last one is held. */
    method AbsorbRest(data: array<Byte>, start: nat, len: nat)
      requires Valid() && Aligned() && start + len <= data.Length && data != x && data != mLast
      requires len == 0 ==> message == []
      modifies this, x, mLast
      ensures Valid() && Streaming() && message == old(message) + data[start..start + len]
    {
      hide Absorbed, CipherWith, Streams, Cipher;
      var at := AbsorbBlocks(data, start, start + len);
      SlicesJoin(data[..], start, at, start + len);
      Hold(data, at, start + len - at);
    }

    /** The block that is held is not the last one. */
    method ReleaseHeld()
      requires Valid() && Streaming() && mN == 16
      modifies x
      ensures Valid() && Aligned()
    {
      hide XorSeq, Cipher, Absorbed, CipherWith;
      AbsorbOne(E(), message, |message| - 16);
      assert message[..|message|] == message && mLast[..16] == mLast[..];
      assert message[|message| - 16..|message|] == message[|message| - 16..];
      AbsorbHeld();
    }

    method Update(data: array<Byte>, len: nat)
      requires Valid() && Streaming() && len <= data.Length && data != x && data != mLast
      modifies this, x, mLast
      ensures Valid() && Streaming() && message == old(message) + data[..len]
    {
      hide XorSeq, Cipher, Absorbed, CipherWith, Streams;
      HeldBounds(E(), message, x[..], mLast[..], mN);
      var at, left := 0, len;
      if mN > 0 {
        var mlen := TopUp(data, len);
        if mN < 16 || left == mlen {
          return;
        }
        ReleaseHeld();
        at := at + mlen;
        left := left - mlen;
      }
      SlicesJoin(data[..], 0, at, len);
      AbsorbRest(data, at, left);
    }

    /** The macro LSHIFT on an array. */
    static method ShiftInPlace(k: array<Byte>)
      requires k.Length == 16
      modifies k
      ensures k[..] == ShiftLeft(old(k[..]))
    {
      hide ShiftByte;
      ghost var b := k[..];
      var i := 0;
      while i < 15
        invariant 0 <= i <= 15
        invariant forall j :: 0 <= j < i ==> k[j] == ShiftByte(b[j], b[j + 1])
        invariant forall j :: i <= j < 16 ==> k[j] == b[j]
      {
        k[i] := ShiftByte(k[i], k[i + 1]);
        i := i + 1;
      }
      k[15] := ShiftByte(k[15], Byte(0));
      assert k[..] == ShiftLeft(b);
    }

    /** Step 2 of Generate_Subkey on the array K: the macro LSHIFT, then the conditional addition of R_b. */
    static method DoubleInPlace(k: array<Byte>)
      requires k.Length == 16
      modifies k
      ensures k[..] == Double(old(k[..]))
    {
      hide ShiftByte, ShiftLeft, Xor, XorSeq;
      ghost var b := k[..];
      var top := k[0].v & 0x80 != 0;
      ShiftInPlace(k);
      if top {
        k[15] := Xor(k[15], Byte(0x87));
        AddRb(ShiftLeft(b), k[..]);
      }
    }

    static lemma AddRb(b: Block, after: Block)
      requires after == b[15 := Xor(b[15], Byte(0x87))]
      ensures after == XorSeq(b, R_B)
    {
      hide Xor;
      forall i | 0 <= i < 16 ensures after[i] == XorSeq(b, R_B)[i] {
        XorZero(b[i]);
      }
    }

    /** padding(M_last) in place. */
    method PadHeld()
      requires Valid() && mN < 16
      modifies this`mN, mLast
      ensures mN == 16 && mLast[..] == Padded(old(mLast[..mN]))
    {
      ghost var n := mN;
      mLast[mN] := Byte(0x80);
      mN := mN + 1;
      while mN < 16
        invariant n < mN <= 16
        invariant mLast[..mN] == old(mLast[..n]) + [Byte(0x80)] + Zeros(mN - n - 1)
      {
        mLast[mN] := Byte(0);
        mN := mN + 1;
      }
      assert mLast[..] == mLast[..16];
    }

    /** The last block is padded if it is incomplete, and masked with its subkey. */
    method MaskHeld()
      requires Valid() && rijndael.rnd > 0 && mN <= 16
      modifies this`mN, mLast
      ensures mLast[..] == LastBlock(E(), old(mLast[..mN]))
    {
      hide XorSeq, Cipher, Double, Padded;
      var k := new Byte[16](_ => Byte(0));
      assert k[..] == Zeros(16);
      EncryptWhole(k, k, rijndael);
      DoubleInPlace(k);
      if mN == 16 {
        assert mLast[..mN] == mLast[..];
      } else {
        DoubleInPlace(k);
        PadHeld();
      }
      XorWhole(mLast, k);
    }

    /** Leaves the MAC of the message in `digest`; the context must be initialised again before its next use. */
    method Final(digest: array<Byte>)
      requires Valid() && Streaming() && digest.Length == 16
      requires digest != x && digest != mLast && digest != rijndael.ksch
      modifies this`mN, x, mLast, digest
      ensures Valid() && digest[..] == Mac(E(), message)
    {
      hide XorSeq, Cipher, Absorbed, LastBlock;
      StreamsGivesMac(E(), message, x[..], mLast[..], mN);
      MaskHeld();
      XorWhole(x, mLast);
      var copy := new Byte[16];
      CopyWhole(copy, x);
      EncryptWhole(copy, digest, rijndael);
    }

    /** The message cut into any pieces, empty ones included, from initialisation to the MAC. */
    method MacOfPieces(key: array<Byte>, pieces: seq<seq<Byte>>, digest: array<Byte>)
      requires Valid() && key.Length >= 16 && digest.Length == 16 && key != rijndael.ksch && key != x
      requires digest != x && digest != mLast && digest != rijndael.ksch
      modifies this, x, mLast, rijndael, rijndael.ksch, digest
      ensures Valid() && digest[..] == Mac(AesUnder(old(key[..16])), Joined(pieces))
    {
      hide Cipher, KeyExpansion, Absorbed, Mac, Streams, AesUnder;
      ghost var e := AesUnder(key[..16]);
      Init();
      SetKey(key);
      UpdateAll(pieces, e);
      Final(digest);
    }

    /** One Update for every piece. */
    method UpdateAll(pieces: seq<seq<Byte>>, ghost e: Block -> Block)
      requires Valid() && Streaming() && message == [] && E() == e
      modifies this, x, mLast
      ensures Valid() && Streaming() && message == Joined(pieces) && E() == e
    {
      hide Cipher, Absorbed, Streams, CipherWith;
      var i := 0;
      while i < |pieces|
        invariant 0 <= i <= |pieces| && Valid() && Streaming() && E() == e
        invariant message == Joined(pieces[..i])
      {
        var data := new Byte[|pieces[i]|](k requires 0 <= k < |pieces[i]| => pieces[i][k]);
        assert data[..|pieces[i]|] == pieces[i] && pieces[..i + 1][..i] == pieces[..i];
        Update(data, data.Length);
        i := i + 1;
      }
      assert pieces[..|pieces|] == pieces;
    }

    /** A message in two pieces, the first of them one block, from initialisation to the MAC. */
    method MacOfTwo(key: array<Byte>, first: array<Byte>, second: array<Byte>, len: nat, digest: array<Byte>)
      requires Valid() && key.Length >= 16 && first.Length == 16 && len <= second.Length && digest.Length == 16
      requires key != rijndael.ksch && key != x
      requires first != x && first != mLast && first != rijndael.ksch && second != x && second != mLast
               && second != rijndael.ksch
      requires digest != x && digest != mLast && digest != rijndael.ksch
      modifies this, x, mLast, rijndael, rijndael.ksch, digest
      ensures Valid() && digest[..] == Mac(AesUnder(old(key[..16])), old(first[..]) + old(second[..len]))
    {
      hide Cipher, KeyExpansion, Absorbed, Mac, Streams;
      ghost var e, m := AesUnder(key[..16]), first[..] + second[..len];
      Init();
      SetKey(key);
      assert E() == e;
      assert first[..16] == first[..];
      Update(first, 16);
      Update(second, len);
      assert message == m && E() == e;
      Final(digest);
    }
  }
}
