/** Cipher block chaining over the block cipher of aes.c. */
module AesCbc {
  import opened Buffers
  import opened Bytes
  import opened Fips197
  import opened Aes

  /** The first `n` blocks of `s`. */
  function Blocks(s: seq<Byte>, n: nat): (bs: seq<Block>)
    requires 16 * n <= |s|
    ensures |bs| == n && forall j :: 0 <= j < n ==> bs[j] == s[16 * j..16 * j + 16]
  {
    if n == 0 then [] else Blocks(s, n - 1) + [s[16 * n - 16..16 * n]]
  }

  function Flat(bs: seq<Block>): (s: seq<Byte>)
    ensures |s| == 16 * |bs|
  {
    if bs == [] then [] else Flat(bs[..|bs| - 1]) + bs[|bs| - 1]
  }

  lemma {:induction false} FlatOfBlocks(s: seq<Byte>, n: nat)
    requires 16 * n <= |s|
    ensures Flat(Blocks(s, n)) == s[..16 * n]
  {
    if n > 0 {
      FlatOfBlocks(s, n - 1);
      assert Blocks(s, n)[..n - 1] == Blocks(s, n - 1);
    }
  }

  lemma {:induction false} BlocksOfFlat(s: seq<Byte>, bs: seq<Block>)
    requires 16 * |bs| <= |s| && s[..16 * |bs|] == Flat(bs)
    ensures Blocks(s, |bs|) == bs
  {
    if bs != [] {
      var (n, front) := (|bs| - 1, bs[..|bs| - 1]);
      assert s[..16 * n] == s[..16 * |bs|][..16 * n] == Flat(front);
      assert s[16 * n..16 * |bs|] == s[..16 * |bs|][16 * n..] == bs[n];
      BlocksOfFlat(s, front);
    }
  }

  /** The chaining value after `cipher`: its last block. */
  function Chain(iv: Block, cipher: seq<Block>): Block {
    if cipher == [] then iv else cipher[|cipher| - 1]
  }

  function CbcEncrypted(e: Block -> Block, iv: Block, plain: seq<Block>): (cipher: seq<Block>)
    ensures |cipher| == |plain|
  {
    if plain == [] then []
    else
      var front := CbcEncrypted(e, iv, plain[..|plain| - 1]);
      front + [e(XorSeq(Chain(iv, front), plain[|plain| - 1]))]
  }

  function CbcDecrypted(d: Block -> Block, iv: Block, cipher: seq<Block>): (plain: seq<Block>)
    ensures |plain| == |cipher|
  {
    if cipher == [] then []
    else
      var front := cipher[..|cipher| - 1];
      CbcDecrypted(d, iv, front) + [XorSeq(d(cipher[|cipher| - 1]), Chain(iv, front))]
  }

  /** The equations of section 6.2 of NIST SP 800-38A, block by block. */
  lemma {:induction false} CbcBlocks(e: Block -> Block, iv: Block, plain: seq<Block>, j: nat)
    requires j < |plain|
    ensures var cipher := CbcEncrypted(e, iv, plain);
            cipher[j] == e(XorSeq(plain[j], if j == 0 then iv else cipher[j - 1]))
  {
    hide XorSeq;
    var n := |plain| - 1;
    var front := CbcEncrypted(e, iv, plain[..n]);
    if j < n {
      CbcBlocks(e, iv, plain[..n], j);
    } else {
      XorSeqCommutes(Chain(iv, front), plain[n]);
    }
  }

  lemma {:induction false} CbcBlocksBack(d: Block -> Block, iv: Block, cipher: seq<Block>, j: nat)
    requires j < |cipher|
    ensures CbcDecrypted(d, iv, cipher)[j] == XorSeq(d(cipher[j]), if j == 0 then iv else cipher[j - 1])
  {
    hide XorSeq;
    if j < |cipher| - 1 {
      CbcBlocksBack(d, iv, cipher[..|cipher| - 1], j);
    }
  }

  ghost predicate Inverts(d: Block -> Block, e: Block -> Block) {
    forall x: Block :: d(e(x)) == x
  }

  /** Decrypting with the same initial value restores every message. */
  lemma {:induction false} CbcRoundTrip(e: Block -> Block, d: Block -> Block, iv: Block, plain: seq<Block>)
    requires Inverts(d, e)
    ensures CbcDecrypted(d, iv, CbcEncrypted(e, iv, plain)) == plain
  {
    hide XorSeq;
    if plain != [] {
      var (before, last) := (plain[..|plain| - 1], plain[|plain| - 1]);
      CbcRoundTrip(e, d, iv, before);
      var front := CbcEncrypted(e, iv, before);
      var cipher := CbcEncrypted(e, iv, plain);
      assert cipher[..|cipher| - 1] == front;
      XorSeqCommutes(Chain(iv, front), last);
      XorSeqCancels(last, Chain(iv, front));
    }
  }

  /** Encrypting a decrypted message restores every ciphertext. */
  lemma {:induction false} CbcRoundTripBack(e: Block -> Block, d: Block -> Block, iv: Block, cipher: seq<Block>)
    requires Inverts(e, d)
    ensures CbcEncrypted(e, iv, CbcDecrypted(d, iv, cipher)) == cipher
  {
    hide XorSeq;
    if cipher != [] {
      var (front, c) := (cipher[..|cipher| - 1], cipher[|cipher| - 1]);
      CbcRoundTripBack(e, d, iv, front);
      var plain := CbcDecrypted(d, iv, cipher);
      assert plain[..|plain| - 1] == CbcDecrypted(d, iv, front);
      XorSeqCommutes(Chain(iv, front), XorSeq(d(c), Chain(iv, front)));
      XorSeqCancels(d(c), Chain(iv, front));
    }
  }

  lemma AesInverts(ks: seq<Byte>, rounds: nat)
    requires Schedule(ks, rounds)
    ensures Inverts(InvCipherWith(ks, rounds), CipherWith(ks, rounds))
    ensures Inverts(CipherWith(ks, rounds), InvCipherWith(ks, rounds))
  {
    hide Cipher, InvCipher;
    var (e, d) := (CipherWith(ks, rounds), InvCipherWith(ks, rounds));
    forall x: Block ensures d(e(x)) == x && e(d(x)) == x {
      InvCipherOfCipher(x, ks, rounds);
      CipherOfInvCipher(x, ks, rounds);
    }
  }

  /** aes_cbc_decrypt after aes_cbc_encrypt with the same schedule and initial value. */
  lemma AesCbcRoundTrip(ks: seq<Byte>, rounds: nat, iv: Block, plain: seq<Block>)
    requires Schedule(ks, rounds)
    ensures CbcDecrypted(InvCipherWith(ks, rounds), iv, CbcEncrypted(CipherWith(ks, rounds), iv, plain)) == plain
    ensures CbcEncrypted(CipherWith(ks, rounds), iv, CbcDecrypted(InvCipherWith(ks, rounds), iv, plain)) == plain
  {
    AesInverts(ks, rounds);
    CbcRoundTrip(CipherWith(ks, rounds), InvCipherWith(ks, rounds), iv, plain);
    CbcRoundTripBack(CipherWith(ks, rounds), InvCipherWith(ks, rounds), iv, plain);
  }

  // ---------- the loops of aes.c ----------

  lemma SpliceExtends(s: seq<Byte>, at: nat, b: seq<Byte>)
    requires at + |b| <= |s|
    ensures Splice(s, at, b)[..at + |b|] == s[..at] + b
    ensures Splice(s, at, b)[at + |b|..] == s[at + |b|..]
  {
  }

  /** The first `n` blocks of `output` are the encryption of those of `plain`, and `iv` is the chaining value. */
  ghost predicate Encrypted(e: Block -> Block, iv0: Block, plain: seq<Byte>, n: nat, output: seq<Byte>, iv: seq<Byte>)
    requires 16 * n <= |plain|
  {
    var c := CbcEncrypted(e, iv0, Blocks(plain, n));
    16 * n <= |output| && output[..16 * n] == Flat(c) && iv == Chain(iv0, c)
  }

  ghost predicate Decrypted(d: Block -> Block, iv0: Block, cipher: seq<Byte>, n: nat, output: seq<Byte>, iv: seq<Byte>)
    requires 16 * n <= |cipher|
  {
    var c := Blocks(cipher, n);
    16 * n <= |output| && output[..16 * n] == Flat(CbcDecrypted(d, iv0, c)) && iv == Chain(iv0, c)
  }

  /**
   The bytes that aes_cbc_decrypt makes of those that aes_cbc_encrypt wrote, under the same key and initial value, are
   the plaintext, and both calls leave the same chaining value.
   */
  lemma BytesRoundTrip(ks: seq<Byte>, rounds: nat, iv: Block, plain: seq<Byte>, n: nat, cipher: seq<Byte>,
                       ivEncrypted: seq<Byte>, output: seq<Byte>, ivDecrypted: seq<Byte>)
    requires Schedule(ks, rounds) && 16 * n <= |plain| && 16 * n <= |cipher|
    requires Encrypted(CipherWith(ks, rounds), iv, plain, n, cipher, ivEncrypted)
    requires Decrypted(InvCipherWith(ks, rounds), iv, cipher, n, output, ivDecrypted)
    ensures 16 * n <= |output| && output[..16 * n] == plain[..16 * n] && ivDecrypted == ivEncrypted
  {
    var c := CbcEncrypted(CipherWith(ks, rounds), iv, Blocks(plain, n));
    BlocksOfFlat(cipher, c);
    AesCbcRoundTrip(ks, rounds, iv, Blocks(plain, n));
    FlatOfBlocks(plain, n);
    hide CbcEncrypted, CbcDecrypted, Blocks, Flat, Chain, Schedule, CipherWith, InvCipherWith;
  }

  lemma SliceOfSuffix(s: seq<Byte>, t: seq<Byte>, at: nat)
    requires at + 16 <= |s| && at + 16 <= |t| && s[at..] == t[at..]
    ensures s[at..at + 16] == t[at..at + 16]
  {
    assert s[at..at + 16] == s[at..][..16] && t[at..at + 16] == t[at..][..16];
  }

  lemma NothingYet(e: Block -> Block, iv: Block, input: seq<Byte>, output: seq<Byte>)
    ensures Encrypted(e, iv, input, 0, output, iv) && Decrypted(e, iv, input, 0, output, iv)
  {
  }

  lemma EncryptedStep(e: Block -> Block, iv0: Block, plain: seq<Byte>, n: nat, output: seq<Byte>, iv: Block,
                      output': seq<Byte>)
    requires 16 * n + 16 <= |plain| && 16 * n + 16 <= |output'| && Encrypted(e, iv0, plain, n, output, iv)
    requires output'[..16 * n + 16] == output[..16 * n] + e(XorSeq(iv, plain[16 * n..16 * n + 16]))
    ensures Encrypted(e, iv0, plain, n + 1, output', e(XorSeq(iv, plain[16 * n..16 * n + 16])))
  {
    hide XorSeq;
    var p := Blocks(plain, n + 1);
    assert p[..n] == Blocks(plain, n);
    var c := CbcEncrypted(e, iv0, p);
    assert c[..n] == CbcEncrypted(e, iv0, p[..n]);
  }

  lemma DecryptedStep(d: Block -> Block, iv0: Block, cipher: seq<Byte>, n: nat, output: seq<Byte>, iv: Block,
                      output': seq<Byte>)
    requires 16 * n + 16 <= |cipher| && 16 * n + 16 <= |output'| && Decrypted(d, iv0, cipher, n, output, iv)
    requires output'[..16 * n + 16] == output[..16 * n] + XorSeq(d(cipher[16 * n..16 * n + 16]), iv)
    ensures Decrypted(d, iv0, cipher, n + 1, output', cipher[16 * n..16 * n + 16])
  {
    hide XorSeq;
    var c := Blocks(cipher, n + 1);
    assert c[..n] == Blocks(cipher, n);
    var p := CbcDecrypted(d, iv0, c);
    assert p[..n] == CbcDecrypted(d, iv0, c[..n]);
  }

  /** From block `i` on the two are the same. */
  ghost predicate SameFrom(s: seq<Byte>, t: seq<Byte>, i: nat) {
    |s| == |t| && 16 * i <= |s| && s[16 * i..] == t[16 * i..]
  }

  /** Nothing after block `i` has changed. */
  lemma SameFromNext(s: seq<Byte>, t: seq<Byte>, i: nat, now: seq<Byte>)
    requires SameFrom(s, t, i) && 16 * i + 16 <= |s| == |now|
    requires now == s || now[16 * i + 16..] == s[16 * i + 16..]
    ensures SameFrom(now, t, i + 1)
  {
    assert s[16 * i + 16..] == s[16 * i..][16..] && t[16 * i + 16..] == t[16 * i..][16..];
  }

  /** One turn of the encryption loop: block `i` is encrypted in place in `iv` and copied out. */
  method EncryptNext(input: array<Byte>, output: array<Byte>, i: nat, iv: array<Byte>, ctx: AesContext)
    returns (status: uint8)
    requires ctx.Valid() && iv.Length == N_BLOCK
    requires iv != input && iv != output && iv != ctx.ksch && output != ctx.ksch
    requires 16 * i + 16 <= input.Length && 16 * i + 16 <= output.Length
    modifies output, iv
    ensures ctx.rnd == 0 ==> status == EXIT_FAILURE && output[..] == old(output[..])
                             && iv[..] == XorSeq(old(iv[..]), old(input[16 * i..16 * i + 16]))
    ensures ctx.rnd > 0 ==> && status == 0
                            && iv[..] == ctx.E(XorSeq(old(iv[..]), old(input[16 * i..16 * i + 16])))
                            && output[..16 * i + 16] == old(output[..16 * i]) + iv[..]
                            && output[16 * i + 16..] == old(output[16 * i + 16..])
  {
    hide XorSeq, Cipher, Splice;
    ghost var x := XorSeq(iv[..], input[16 * i..16 * i + 16]);
    assert iv[..] == iv[0..N_BLOCK];
    SpliceWhole(iv[..], x);
    XorBlock(iv, 0, input, 16 * i);
    assert iv[..] == iv[0..N_BLOCK];
    var failed := AesEncrypt(iv, 0, iv, 0, ctx);
    if failed != 0 {
      return EXIT_FAILURE;
    }
    SpliceWhole(x, ctx.E(x));
    assert iv[..] == iv[0..N_BLOCK];
    SpliceExtends(output[..], 16 * i, iv[..]);
    BlockCopy(output, 16 * i, iv, 0, N_BLOCK);
    return 0;
  }

  /** `input` and `output` may be the same array. */
  method AesCbcEncrypt(input: array<Byte>, output: array<Byte>, nBlock: nat, iv: array<Byte>, ctx: AesContext)
    returns (status: uint8)
    requires ctx.Valid() && iv.Length == N_BLOCK
    requires iv != input && iv != output && iv != ctx.ksch && output != ctx.ksch
    requires 16 * nBlock <= input.Length && 16 * nBlock <= output.Length
    modifies output, iv
    ensures output[16 * nBlock..] == old(output[16 * nBlock..])
    ensures ctx.rnd > 0 ==>
              status == 0 && Encrypted(CipherWith(ctx.RoundKeys(), ctx.rnd), old(iv[..]), old(input[..]), nBlock,
                                       output[..], iv[..])
    ensures ctx.rnd == 0 ==> output[..] == old(output[..])
    ensures ctx.rnd == 0 && nBlock == 0 ==> status == 0 && iv[..] == old(iv[..])
    ensures ctx.rnd == 0 && nBlock > 0 ==> status == EXIT_FAILURE && iv[..] == XorSeq(old(iv[..]), old(input[0..16]))
  {
    hide XorSeq, Cipher, Encrypted;
    ghost var iv0, plain := iv[..], input[..];
    ghost var e := if ctx.rnd > 0 then CipherWith(ctx.RoundKeys(), ctx.rnd) else (b: Block) => b;
    NothingYet(e, iv0, plain, output[..]);
    var i := 0;
    while i < nBlock
      invariant 0 <= i <= nBlock && (i > 0 ==> ctx.rnd > 0)
      invariant i == 0 ==> iv[..] == iv0
      invariant SameFrom(input[..], plain, i) && SameFrom(output[..], old(output[..]), i)
      invariant Encrypted(e, iv0, plain, i, output[..], iv[..])
    {
      ghost var source, before, chain := input[..], output[..], iv[..];
      SliceOfSuffix(source, plain, 16 * i);
      status := EncryptNext(input, output, i, iv, ctx);
      if status != 0 {
        return EXIT_FAILURE;
      }
      EncryptedStep(e, iv0, plain, i, before, chain, output[..]);
      SameFromNext(source, plain, i, input[..]);
      SameFromNext(before, old(output[..]), i, output[..]);
      i := i + 1;
    }
    return 0;
  }

  /** One turn of the decryption loop; `tmp` keeps the ciphertext block in case it is overwritten. */
  method DecryptNext(input: array<Byte>, output: array<Byte>, i: nat, iv: array<Byte>, ctx: AesContext)
    returns (status: uint8)
    requires ctx.Valid() && iv.Length == N_BLOCK
    requires iv != input && iv != output && iv != ctx.ksch && output != ctx.ksch
    requires 16 * i + 16 <= input.Length && 16 * i + 16 <= output.Length
    modifies output, iv
    ensures ctx.rnd == 0 ==> status == EXIT_FAILURE && output[..] == old(output[..]) && iv[..] == old(iv[..])
    ensures ctx.rnd > 0 ==> && status == 0
                            && iv[..] == old(input[16 * i..16 * i + 16])
                            && output[..16 * i + 16] ==
                              old(output[..16 * i]) + XorSeq(ctx.D(old(input[16 * i..16 * i + 16])), old(iv[..]))
                            && output[16 * i + 16..] == old(output[16 * i + 16..])
  {
    hide XorSeq, InvCipher, Splice;
    ghost var block, chain, before := input[16 * i..16 * i + 16], iv[..], output[..];
    var tmp := new Byte[N_BLOCK];
    SpliceWhole(tmp[..], block);
    BlockCopy(tmp, 0, input, 16 * i, N_BLOCK);
    var failed := AesDecrypt(input, 16 * i, output, 16 * i, ctx);
    if failed != 0 {
      return EXIT_FAILURE;
    }
    assert iv[..] == iv[0..N_BLOCK] && tmp[..] == tmp[0..N_BLOCK];
    SpliceExtends(before, 16 * i, ctx.D(block));
    ghost var d := output[..];
    XorBlock(output, 16 * i, iv, 0);
    assert d[..16 * i] == before[..16 * i] by {
      assert d[..16 * i + 16][..16 * i] == before[..16 * i];
    }
    SpliceExtends(d, 16 * i, XorSeq(ctx.D(block), chain));
    SpliceWhole(iv[..], block);
    BlockCopy(iv, 0, tmp, 0, N_BLOCK);
    return 0;
  }

  /** `input` and `output` may be the same array. */
  method AesCbcDecrypt(input: array<Byte>, output: array<Byte>, nBlock: nat, iv: array<Byte>, ctx: AesContext)
    returns (status: uint8)
    requires ctx.Valid() && iv.Length == N_BLOCK
    requires iv != input && iv != output && iv != ctx.ksch && output != ctx.ksch
    requires 16 * nBlock <= input.Length && 16 * nBlock <= output.Length
    modifies output, iv
    ensures output[16 * nBlock..] == old(output[16 * nBlock..])
    ensures ctx.rnd > 0 ==>
              status == 0 && Decrypted(InvCipherWith(ctx.RoundKeys(), ctx.rnd), old(iv[..]), old(input[..]), nBlock,
                                       output[..], iv[..])
    ensures ctx.rnd == 0 ==> output[..] == old(output[..]) && iv[..] == old(iv[..])
    ensures ctx.rnd == 0 ==> status == if nBlock == 0 then 0 else EXIT_FAILURE
  {
    hide XorSeq, InvCipher, Decrypted;
    ghost var iv0, cipher := iv[..], input[..];
    ghost var d := if ctx.rnd > 0 then InvCipherWith(ctx.RoundKeys(), ctx.rnd) else (b: Block) => b;
    NothingYet(d, iv0, cipher, output[..]);
    var i := 0;
    while i < nBlock
      invariant 0 <= i <= nBlock && (i > 0 ==> ctx.rnd > 0)
      invariant SameFrom(input[..], cipher, i) && SameFrom(output[..], old(output[..]), i)
      invariant i == 0 ==> iv[..] == iv0 && output[..] == old(output[..])
      invariant Decrypted(d, iv0, cipher, i, output[..], iv[..])
    {
      ghost var source, before, chain := input[..], output[..], iv[..];
      SliceOfSuffix(source, cipher, 16 * i);
      status := DecryptNext(input, output, i, iv, ctx);
      if status != 0 {
        return EXIT_FAILURE;
      }
      DecryptedStep(d, iv0, cipher, i, before, chain, output[..]);
      SameFromNext(source, cipher, i, input[..]);
      SameFromNext(before, old(output[..]), i, output[..]);
      i := i + 1;
    }
    return 0;
  }
}
