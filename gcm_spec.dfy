/** The values `SM4_GCM` in Project-1/sm4_gcm_modopt.cpp computes, as
    functions of its inputs: the counter increment, the blocks GHASH folds,
    GHASH itself for a given block product, the initial counter J0, the
    counter-mode keystream and the sealed and opened messages. GHASH and
    the tag are stated for any product, so that the same lemmas cover the
    code as written (whose product is `gfmul` called in place) and the
    product of NIST SP 800-38D. */
module GcmSpec {
  import opened Wrappers
  import opened Words
  import Modes
  import opened Gf128

  // ---------------------------------------------------------------------
  // incrementCounter

  /** Adding one to a big-endian byte string, carrying into the byte before
      and wrapping around at the top. */
  function IncBytes(s: seq<byte>): (r: seq<byte>)
    ensures |r| == |s|
    decreases |s|
  {
    if s == [] then []
    else if s[|s| - 1] < 255 then s[..|s| - 1] + [s[|s| - 1] + 1]
    else IncBytes(s[..|s| - 1]) + [0]
  }

  /** The last byte either gains one or wraps to zero and carries. */
  lemma IncBytesLast(s: seq<byte>)
    requires s != []
    ensures s[|s| - 1] < 255 ==> IncBytes(s) == s[..|s| - 1] + [s[|s| - 1] + 1]
    ensures s[|s| - 1] == 255 ==> IncBytes(s) == IncBytes(s[..|s| - 1]) + [0]
  {
  }

  lemma {:induction false} FromBytesBound(s: seq<byte>)
    ensures Modes.FromBytes(s) < Modes.Pow256(|s|)
    decreases |s|
  {
    if s != [] {
      FromBytesBound(s[..|s| - 1]);
    }
  }

  /** IncBytes adds one, and wraps around to zero from 256^|s| - 1. */
  lemma {:induction false} IncBytesValue(s: seq<byte>)
    ensures Modes.FromBytes(s) + 1 < Modes.Pow256(|s|) ==> Modes.FromBytes(IncBytes(s)) == Modes.FromBytes(s) + 1
    ensures Modes.FromBytes(s) + 1 == Modes.Pow256(|s|) ==> Modes.FromBytes(IncBytes(s)) == 0
    decreases |s|
  {
    if s != [] {
      var front := s[..|s| - 1];
      FromBytesBound(front);
      if s[|s| - 1] < 255 {
        assert (front + [s[|s| - 1] + 1])[..|s| - 1] == front;
      } else {
        IncBytesValue(front);
        assert (IncBytes(front) + [0])[..|s| - 1] == IncBytes(front);
      }
    }
  }

  /** inc32 of section 6.2 of NIST SP 800-38D: the last four bytes as a
      big-endian counter plus one. */
  function Inc32(c: Block): Block
  {
    c[..12] + IncBytes(c[12..])
  }

  /** Bytes 0..11 never change; bytes 12..15 gain one modulo 2^32. */
  lemma Inc32Value(c: Block)
    ensures Inc32(c)[..12] == c[..12]
    ensures Modes.FromBytes(Inc32(c)[12..]) == (Modes.FromBytes(c[12..]) + 1) % 0x1_0000_0000
  {
    IncBytesValue(c[12..]);
    FromBytesBound(c[12..]);
    assert Inc32(c)[12..] == IncBytes(c[12..]);
    assert Modes.Pow256(4) == 0x1_0000_0000;
  }

  /** The counter after n increments. */
  function IncN(c: Block, n: nat): Block
  {
    if n == 0 then c else Inc32(IncN(c, n - 1))
  }

  // ---------------------------------------------------------------------
  // The blocks GHASH folds

  /** The number of 16-byte chunks of len bytes, rounded up. */
  function ChunkCount(len: nat): nat { (len + 15) / 16 }

  /** The bytes `ghash` copies into `block` for chunk i: 16, except for
      the last chunk, which takes what is left. */
  function ChunkSize(len: nat, i: nat): nat
    requires i < ChunkCount(len)
    ensures 0 < ChunkSize(len, i) <= 16 && 16 * i + ChunkSize(len, i) <= len
  {
    if i == ChunkCount(len) - 1 then len - 16 * i else 16
  }

  /** Chunk i of data, zero-padded to a block. */
  function Chunk(data: seq<byte>, i: nat): Block
    requires i < ChunkCount(|data|)
  {
    data[16 * i..16 * i + ChunkSize(|data|, i)] + Zeros(16 - ChunkSize(|data|, i))
  }

  function PadBlocks(data: seq<byte>): (r: seq<Block>)
    ensures |r| == ChunkCount(|data|)
  {
    seq(ChunkCount(|data|), i requires 0 <= i < ChunkCount(|data|) => Chunk(data, i))
  }

  /** Chunking keeps every byte in order and only adds zeros at the end. */
  lemma ChunkContents(data: seq<byte>, i: nat, j: nat)
    requires i < ChunkCount(|data|) && j < 16
    ensures Chunk(data, i)[j] == if 16 * i + j < |data| then data[16 * i + j] else 0
  {
  }

  /** `len * 8` as the uint64_t of the length block. */
  function BitLength(len: nat): nat
  {
    (len * 8) % 0x1_0000_0000_0000_0000
  }

  /** The block of 64-bit big-endian bit lengths, AAD first. */
  function LengthBlock(aadLen: nat, cLen: nat): Block
  {
    Modes.ToBytes(BitLength(aadLen), 8) + Modes.ToBytes(BitLength(cLen), 8)
  }

  /** The length block holds both bit lengths (modulo 2^64), AAD first. */
  lemma LengthBlockValue(aadLen: nat, cLen: nat)
    ensures Modes.FromBytes(LengthBlock(aadLen, cLen)[..8]) == BitLength(aadLen)
    ensures Modes.FromBytes(LengthBlock(aadLen, cLen)[8..]) == BitLength(cLen)
  {
    var a := Modes.ToBytes(BitLength(aadLen), 8);
    var b := Modes.ToBytes(BitLength(cLen), 8);
    assert LengthBlock(aadLen, cLen)[..8] == a && LengthBlock(aadLen, cLen)[8..] == b;
    assert Modes.Pow256(8) == 0x1_0000_0000_0000_0000;
    Modes.FitsBelow(BitLength(aadLen), 8);
    Modes.FitsBelow(BitLength(cLen), 8);
  }

  /** In order: the AAD chunks, the ciphertext chunks, the length block
      (which is there even when both inputs are empty). */
  function GhashInput(aad: seq<byte>, c: seq<byte>): (r: seq<Block>)
    ensures |r| == ChunkCount(|aad|) + ChunkCount(|c|) + 1
    ensures r[|r| - 1] == LengthBlock(|aad|, |c|)
  {
    PadBlocks(aad) + PadBlocks(c) + [LengthBlock(|aad|, |c|)]
  }

  // ---------------------------------------------------------------------
  // GHASH over a given block product

  /** Y after folding xs into y: each block is xored into Y, then Y is
      multiplied by h. */
  function Fold(mul: (Block, Block) -> Block, h: Block, y: Block, xs: seq<Block>): Block
  {
    if xs == [] then y else mul(XorBytes(Fold(mul, h, y, xs[..|xs| - 1]), xs[|xs| - 1]), h)
  }

  lemma {:induction false} FoldConcat(mul: (Block, Block) -> Block, h: Block, y: Block, xs: seq<Block>, ys: seq<Block>)
    ensures Fold(mul, h, y, xs + ys) == Fold(mul, h, Fold(mul, h, y, xs), ys)
    decreases |ys|
  {
    if ys == [] {
      assert xs + ys == xs;
    } else {
      assert (xs + ys)[..|xs + ys| - 1] == xs + ys[..|ys| - 1];
      FoldConcat(mul, h, y, xs, ys[..|ys| - 1]);
    }
  }

  function Ghash(mul: (Block, Block) -> Block, h: Block, aad: seq<byte>, c: seq<byte>): Block
  {
    Fold(mul, h, Zeros(16), GhashInput(aad, c))
  }

  /** `gfmul(y, h, y)` as `ghash` calls it: z is cleared before x, the same
      buffer, is read, so the product is that of a zero block. */
  function InPlaceProduct(y: Block, h: Block): Block
  {
    MulAsWritten(Zeros(16), h)
  }

  /** The product as `ghash` uses it is zero whatever its operands. */
  lemma InPlaceProductZero(y: Block, h: Block)
    ensures InPlaceProduct(y, h) == Zeros(16)
  {
    MulAsWrittenZero(h);
  }

  /** As written, GHASH is the zero block for every key, AAD and ciphertext. */
  lemma GhashAsWrittenZero(h: Block, aad: seq<byte>, c: seq<byte>)
    ensures Ghash(InPlaceProduct, h, aad, c) == Zeros(16)
  {
    var xs := GhashInput(aad, c);
    InPlaceProductZero(XorBytes(Fold(InPlaceProduct, h, Zeros(16), xs[..|xs| - 1]), xs[|xs| - 1]), h);
  }

  /** GHASH of SP 800-38D section 6.4, with the product of section 6.3. */
  function GhashCorrected(h: Block, aad: seq<byte>, c: seq<byte>): Block
  {
    Ghash(Mul, h, aad, c)
  }

  /** With the product of SP 800-38D and H = 1, folding two blocks gives
      their xor. */
  lemma FoldTwoOne(a: Block, b: Block)
    ensures Fold(Mul, ONE, Zeros(16), [a, b]) == XorBytes(a, b)
  {
    var f1 := Fold(Mul, ONE, Zeros(16), [a]);
    assert [a][..0] == [];
    assert Fold(Mul, ONE, Zeros(16), []) == Zeros(16);
    assert f1 == Mul(XorBytes(Fold(Mul, ONE, Zeros(16), []), a), ONE);
    XorBytesZeroLeft(a);
    MulOneRight(a);
    assert [a, b][..1] == [a];
    assert Fold(Mul, ONE, Zeros(16), [a, b]) == Mul(XorBytes(f1, b), ONE);
    MulOneRight(XorBytes(a, b));
  }

  lemma PadBlocksOne(c: seq<byte>)
    requires |c| == 16
    ensures PadBlocks(c) == [c]
  {
    assert Chunk(c, 0) == c;
  }

  /** The corrected GHASH does depend on the ciphertext: with H = 1 and no
      AAD, two different one-block ciphertexts hash differently. */
  lemma GhashCorrectedSeesCiphertext(c1: seq<byte>, c2: seq<byte>)
    requires |c1| == 16 && |c2| == 16 && c1 != c2
    ensures GhashCorrected(ONE, [], c1) != GhashCorrected(ONE, [], c2)
  {
    var l := LengthBlock(0, 16);
    PadBlocksOne(c1);
    PadBlocksOne(c2);
    assert PadBlocks([]) == [];
    assert GhashInput([], c1) == [c1, l];
    assert GhashInput([], c2) == [c2, l];
    FoldTwoOne(c1, l);
    FoldTwoOne(c2, l);
    XorBytesCancel(c1, l);
    XorBytesCancel(c2, l);
  }

  // ---------------------------------------------------------------------
  // generateInitialCounter

  /** J0 as written: a 12-byte IV followed by 00 00 00 01; any other IV
      goes through `ghash` with an all-zero hash key and the IV as AAD. */
  function InitialCounter(iv: seq<byte>): Block
  {
    if |iv| == 12 then iv + [0, 0, 0, 1] else Ghash(InPlaceProduct, Zeros(16), iv, [])
  }

  /** Every IV whose length is not 12 yields the all-zero J0. */
  lemma InitialCounterZero(iv: seq<byte>)
    requires |iv| != 12
    ensures InitialCounter(iv) == Zeros(16)
  {
    GhashAsWrittenZero(Zeros(16), iv, []);
  }

  /** Two different 16-byte IVs, for instance, share their J0. */
  lemma InitialCounterCollision(iv1: seq<byte>, iv2: seq<byte>)
    requires |iv1| != 12 && |iv2| != 12
    ensures InitialCounter(iv1) == InitialCounter(iv2)
  {
    InitialCounterZero(iv1);
    InitialCounterZero(iv2);
  }

  /** J0 of section 7.1 step 2 of SP 800-38D: GHASH under H of the IV,
      zero-padded, followed by a block of 64 zero bits and the IV's bit
      length. */
  function InitialCounterCorrected(h: Block, iv: seq<byte>): Block
  {
    if |iv| == 12 then iv + [0, 0, 0, 1]
    else Fold(Mul, h, Zeros(16), PadBlocks(iv) + [IvLengthBlock(|iv|)])
  }

  /** 64 zero bits, then the IV's bit length as a 64-bit big-endian number. */
  function IvLengthBlock(ivLen: nat): Block
  {
    Zeros(8) + Modes.ToBytes(BitLength(ivLen), 8)
  }

  /** The corrected J0 tells IVs apart: with H = 1, two different 16-byte
      IVs give different initial counters. */
  lemma InitialCounterCorrectedSeesIv(iv1: seq<byte>, iv2: seq<byte>)
    requires |iv1| == 16 && |iv2| == 16 && iv1 != iv2
    ensures InitialCounterCorrected(ONE, iv1) != InitialCounterCorrected(ONE, iv2)
  {
    var l := IvLengthBlock(16);
    PadBlocksOne(iv1);
    PadBlocksOne(iv2);
    assert PadBlocks(iv1) + [l] == [iv1, l];
    assert PadBlocks(iv2) + [l] == [iv2, l];
    FoldTwoOne(iv1, l);
    FoldTwoOne(iv2, l);
    XorBytesCancel(iv1, l);
    XorBytesCancel(iv2, l);
  }

  // ---------------------------------------------------------------------
  // Counter mode and the sealed message

  /** Counter-mode output: byte k is x[k] xored with byte k % 16 of the
      encryption of the counter block icb advanced k / 16 times, so the
      last, partial chunk uses a prefix of its keystream block. */
  function Gctr(E: Block -> Block, icb: Block, x: seq<byte>): (r: seq<byte>)
    ensures |r| == |x|
  {
    seq(|x|, k requires 0 <= k < |x| => KeystreamXor(E, icb, x, k))
  }

  function KeystreamXor(E: Block -> Block, icb: Block, x: seq<byte>, k: nat): byte
    requires k < |x|
  {
    Xor8(x[k], E(IncN(icb, k / 16))[k % 16])
  }

  /** Counter mode undoes itself. */
  lemma GctrInvolution(E: Block -> Block, icb: Block, x: seq<byte>)
    ensures Gctr(E, icb, Gctr(E, icb, x)) == x
  {
    forall k | 0 <= k < |x|
      ensures Gctr(E, icb, Gctr(E, icb, x))[k] == x[k]
    {
      assert Gctr(E, icb, x)[k] == Xor8(x[k], E(IncN(icb, k / 16))[k % 16]);
      Xor8Twice(x[k], E(IncN(icb, k / 16))[k % 16]);
    }
  }

  /** The tag for ciphertext c: the first tagLen bytes of E(J0) xor S. */
  function Tag(E: Block -> Block, mul: (Block, Block) -> Block, iv: seq<byte>, aad: seq<byte>, c: seq<byte>, tagLen: nat): seq<byte>
    requires tagLen <= 16
  {
    XorBytes(E(InitialCounter(iv)), Ghash(mul, E(Zeros(16)), aad, c))[..tagLen]
  }

  datatype Sealed = Sealed(ciphertext: seq<byte>, tag: seq<byte>)

  /** `SM4_GCM::encrypt`: None when it throws `invalid_argument` because
      the tag length is outside 12..16; otherwise the counter-mode
      ciphertext starting from inc32(J0), and its tag. */
  function Seal(E: Block -> Block, mul: (Block, Block) -> Block, iv: seq<byte>, aad: seq<byte>, p: seq<byte>, tagLen: nat): (r: Option<Sealed>)
    ensures r.Some? <==> 12 <= tagLen <= 16
    ensures r.Some? ==> |r.value.ciphertext| == |p| && |r.value.tag| == tagLen
  {
    if tagLen < 12 || tagLen > 16 then None
    else
      var c := Gctr(E, Inc32(InitialCounter(iv)), p);
      Some(Sealed(c, Tag(E, mul, iv, aad, c, tagLen)))
  }

  /** `SM4_GCM::decrypt`: the tag is recomputed over as many bytes as the
      given tag has and compared; only then is the ciphertext decrypted. */
  function Open(E: Block -> Block, mul: (Block, Block) -> Block, iv: seq<byte>, aad: seq<byte>, c: seq<byte>, tag: seq<byte>): (r: Option<seq<byte>>)
    requires |tag| <= 16
    ensures r.Some? <==> Tag(E, mul, iv, aad, c, |tag|) == tag
    ensures r.Some? ==> |r.value| == |c|
  {
    if Tag(E, mul, iv, aad, c, |tag|) == tag then Some(Gctr(E, Inc32(InitialCounter(iv)), c)) else None
  }

  /** Opening a sealed message gives the plaintext back, for any product. */
  lemma SealOpen(E: Block -> Block, mul: (Block, Block) -> Block, iv: seq<byte>, aad: seq<byte>, p: seq<byte>, tagLen: nat)
    requires 12 <= tagLen <= 16
    ensures Open(E, mul, iv, aad, Seal(E, mul, iv, aad, p, tagLen).value.ciphertext, Seal(E, mul, iv, aad, p, tagLen).value.tag) == Some(p)
  {
    GctrInvolution(E, Inc32(InitialCounter(iv)), p);
  }

  /** As written, the tag is a prefix of E(J0) alone: it does not depend on
      the AAD or on the ciphertext. */
  lemma TagAsWritten(E: Block -> Block, iv: seq<byte>, aad: seq<byte>, c: seq<byte>, tagLen: nat)
    requires tagLen <= 16
    ensures Tag(E, InPlaceProduct, iv, aad, c, tagLen) == E(InitialCounter(iv))[..tagLen]
  {
    var s := Ghash(InPlaceProduct, E(Zeros(16)), aad, c);
    GhashAsWrittenZero(E(Zeros(16)), aad, c);
    assert XorBytes(E(InitialCounter(iv)), s) == E(InitialCounter(iv)) by {
      forall k | 0 <= k < 16
        ensures Xor8(E(InitialCounter(iv))[k], 0) == E(InitialCounter(iv))[k]
      {
        Xor8IsXor(E(InitialCounter(iv))[k], 0);
        XorZero(E(InitialCounter(iv))[k]);
      }
    }
  }

  /** So a tag produced for one message is accepted with any other AAD and
      any other ciphertext under the same IV: the tampering the test in
      `main` was meant to catch goes through. */
  lemma TamperAccepted(E: Block -> Block, iv: seq<byte>, aad: seq<byte>, p: seq<byte>, tagLen: nat,
                       aad2: seq<byte>, c2: seq<byte>)
    requires 12 <= tagLen <= 16
    ensures Open(E, InPlaceProduct, iv, aad2, c2, Seal(E, InPlaceProduct, iv, aad, p, tagLen).value.tag).Some?
  {
    var c := Seal(E, InPlaceProduct, iv, aad, p, tagLen).value.ciphertext;
    TagAsWritten(E, iv, aad, c, tagLen);
    TagAsWritten(E, iv, aad2, c2, tagLen);
  }

  /** With no tag-length check in `decrypt`, an empty tag is always accepted. */
  lemma EmptyTagAccepted(E: Block -> Block, mul: (Block, Block) -> Block, iv: seq<byte>, aad: seq<byte>, c: seq<byte>)
    ensures Open(E, mul, iv, aad, c, []).Some?
  {
  }

  /** `decrypt` with the tag-length check `encrypt` makes: a tag outside
      12 .. 16 bytes is refused before anything is computed. */
  function OpenChecked(E: Block -> Block, mul: (Block, Block) -> Block, iv: seq<byte>, aad: seq<byte>, c: seq<byte>, tag: seq<byte>): (r: Option<seq<byte>>)
    ensures r.Some? <==> 12 <= |tag| <= 16 && Tag(E, mul, iv, aad, c, |tag|) == tag
    ensures r.Some? ==> |r.value| == |c|
  {
    if |tag| < 12 || |tag| > 16 then None else Open(E, mul, iv, aad, c, tag)
  }

  /** The checked decryption still opens every sealed message. */
  lemma SealOpenChecked(E: Block -> Block, mul: (Block, Block) -> Block, iv: seq<byte>, aad: seq<byte>, p: seq<byte>, tagLen: nat)
    requires 12 <= tagLen <= 16
    ensures OpenChecked(E, mul, iv, aad, Seal(E, mul, iv, aad, p, tagLen).value.ciphertext, Seal(E, mul, iv, aad, p, tagLen).value.tag) == Some(p)
  {
    SealOpen(E, mul, iv, aad, p, tagLen);
  }
}
