/** The static members of class `SM4_GCM` in Project-1/sm4_gcm_modopt.cpp
    as methods over byte arrays, each proved against the functions of
    GcmSpec. Pointers with lengths become arrays with explicit lengths,
    and fixed local buffers become fresh arrays. `gfmul` keeps its
    aliasing: the contract says what it computes when z and x are the same
    buffer, which is how `ghash` calls it. */
module Gcm {
  import opened Wrappers
  import opened Words
  import opened Sm4
  import opened Sm4Cpp
  import opened Gf128
  import opened GcmSpec
  import Modes

  // ---------------------------------------------------------------------
  // memcpy, memset and the xor loops

  /** `memcpy(dst, src, 16)`. */
  method CopyBlock(src: array<byte>, dst: array<byte>)
    requires src.Length == 16 && dst.Length == 16
    modifies dst
    ensures dst[..] == old(src[..])
  {
    ghost var s := src[..];
    for k := 0 to 16
      invariant forall m :: 0 <= m < k ==> dst[m] == s[m]
      invariant forall m :: k <= m < 16 ==> src[m] == s[m]
    {
      dst[k] := src[k];
    }
    assert dst[..] == s;
  }

  /** `memset(z, 0, 16)`. */
  method Clear(z: array<byte>)
    requires z.Length == 16
    modifies z
    ensures z[..] == Zeros(16)
  {
    for k := 0 to 16
      invariant forall m :: 0 <= m < k ==> z[m] == 0
    {
      z[k] := 0;
    }
  }

  /** `for (k...) y[k] ^= b[k];` over a block. */
  method XorInto(y: array<byte>, b: array<byte>)
    requires y.Length == 16 && b.Length == 16 && y != b
    modifies y
    ensures y[..] == XorBytes(old(y[..]), b[..])
  {
    ghost var y0 := y[..];
    for k := 0 to 16
      invariant forall m :: 0 <= m < k ==> y[m] == Xor8(y0[m], b[m])
      invariant forall m :: k <= m < 16 ==> y[m] == y0[m]
    {
      y[k] := Xor8(y[k], b[k]);
    }
    assert y[..] == XorBytes(y0, b[..]);
  }

  // ---------------------------------------------------------------------
  // gfmul

  /** The shift of v in `gfmul`. `(v[k] << 1) | ((v[k+1] & 0x80) >> 7)`
      is written with + because the low bit of the shifted byte is clear;
      the last byte takes `r >> 7`, which is the old low bit of v[0]. */
  method ShiftV(v: array<byte>)
    requires v.Length == 16
    modifies v
    ensures v[..] == ShiftAsWritten(old(v[..]))
  {
    ghost var v0 := v[..];
    var carry: byte := if v[0] >= 0x80 then 0xE1 else 0;
    var r: byte := if v[0] % 2 == 1 then 0x80 else 0;
    assert r / 128 == v0[0] % 2 && (carry != 0) == (v0[0] >= 0x80);
    for k := 0 to 15
      invariant forall m :: 0 <= m < k ==> v[m] == Shl1(v0[m]) + v0[m + 1] / 128
      invariant forall m :: k <= m < 16 ==> v[m] == v0[m]
    {
      v[k] := Shl1(v[k]) + v[k + 1] / 128;
    }
    assert v[15] == v0[15];
    v[15] := Shl1(v[15]) + r / 128;
    if carry != 0 {
      v[15] := Xor8(v[15], carry);
    }
    assert v[15] == ShiftedAt(v0, 15);
    ShiftedAll(v0, v[..]);
  }

  /** The bytes ShiftV leaves, put together. */
  lemma ShiftedAll(v0: Block, u: seq<byte>)
    requires |u| == 16 && u[15] == ShiftedAt(v0, 15)
    requires forall m :: 0 <= m < 15 ==> u[m] == Shl1(v0[m]) + v0[m + 1] / 128
    ensures u == ShiftAsWritten(v0)
  {
  }

  /** One pass of the inner loop body of `gfmul`: v is added to z when the
      tested bit is set, then v is shifted. */
  method GfMulPass(z: array<byte>, v: array<byte>, bit: bool)
    requires z.Length == 16 && v.Length == 16 && z != v
    modifies z, v
    ensures z[..] == if bit then XorBytes(old(z[..]), old(v[..])) else old(z[..])
    ensures v[..] == ShiftAsWritten(old(v[..]))
  {
    if bit {
      XorInto(z, v);
    }
    ShiftV(v);
  }

  lemma StepsNext(x: Block, y: Block, n: nat, i: nat, j: nat)
    requires i < 16 && j < 8 && n == 8 * i + j
    ensures var s := AsWrittenSteps(x, y, n);
      AsWrittenSteps(x, y, n + 1)
      == Registers(if ShiftedByte(x[i], j) >= 0x80 then XorBytes(s.z, s.v) else s.z, ShiftAsWritten(s.v))
  {
    assert n / 8 == i && n % 8 == j;
  }

  /** The inner loop of `gfmul` for byte i of the multiplier: eight passes,
      each testing the top bit of the copy b and shifting b left. */
  method GfMulByte(b0: byte, z: array<byte>, v: array<byte>, ghost xs: Block, ghost ys: Block, ghost i: nat, ghost n0: nat)
    requires i < 16 && n0 == 8 * i && b0 == xs[i] && z.Length == 16 && v.Length == 16 && z != v
    requires Registers(z[..], v[..]) == AsWrittenSteps(xs, ys, n0)
    modifies z, v
    ensures Registers(z[..], v[..]) == AsWrittenSteps(xs, ys, n0 + 8)
  {
    var b := b0;
    ghost var n := n0;
    for j := 0 to 8
      invariant n == 8 * i + j
      invariant b == ShiftedByte(xs[i], j)
      invariant z[..] == AsWrittenSteps(xs, ys, n).z && v[..] == AsWrittenSteps(xs, ys, n).v
    {
      b := GfMulBit(b, z, v, xs, ys, i, j, n);
      n := n + 1;
    }
  }

  /** Pass 8 i + j of `gfmul`, b being x[i] shifted j times. */
  method GfMulBit(b: byte, z: array<byte>, v: array<byte>, ghost xs: Block, ghost ys: Block,
                  ghost i: nat, ghost j: nat, ghost n: nat) returns (next: byte)
    requires i < 16 && j < 8 && n == 8 * i + j && b == ShiftedByte(xs[i], j)
    requires z.Length == 16 && v.Length == 16 && z != v
    requires Registers(z[..], v[..]) == AsWrittenSteps(xs, ys, n)
    modifies z, v
    ensures Registers(z[..], v[..]) == AsWrittenSteps(xs, ys, n + 1)
    ensures next == ShiftedByte(xs[i], j + 1)
  {
    StepsNext(xs, ys, n, i, j);
    GfMulPass(z, v, b >= 0x80);
    next := Shl1(b);
  }

  /** `gfmul(x, y, z)`. z is cleared before x is read, so when z and x are
      the same buffer the multiplier is the zero block. */
  method GfMul(x: array<byte>, y: array<byte>, z: array<byte>)
    requires x.Length == 16 && y.Length == 16 && z.Length == 16
    modifies z
    ensures z[..] == MulAsWritten(if x == z then Zeros(16) else old(x[..]), old(y[..]))
  {
    ghost var xs: Block := if x == z then Zeros(16) else x[..];
    var v := new byte[16];
    CopyBlock(y, v);
    Clear(z);
    GfMulLoop(x, z, v, xs, v[..]);
  }

  /** The outer loop of `gfmul`, over the bytes of x. */
  method GfMulLoop(x: array<byte>, z: array<byte>, v: array<byte>, ghost xs: Block, ghost ys: Block)
    requires x.Length == 16 && z.Length == 16 && v.Length == 16 && v != z && v != x
    requires x[..] == xs && z[..] == Zeros(16) && v[..] == ys && (x == z ==> xs == Zeros(16))
    modifies z, v
    ensures z[..] == MulAsWritten(xs, ys)
  {
    ghost var n := 0;
    for i := 0 to 16
      invariant n == 8 * i
      invariant x[..] == xs
      invariant z[..] == AsWrittenSteps(xs, ys, n).z
      invariant v[..] == AsWrittenSteps(xs, ys, n).v
    {
      GfMulByte(x[i], z, v, xs, ys, i, n);
      n := n + 8;
      if x == z {
        AsWrittenZeroSteps(ys, n);
      }
    }
  }

  // ---------------------------------------------------------------------
  // incrementCounter

  /** `incrementCounter(counter)`: ++ on bytes 15, 14, 13, 12 until one of
      them does not wrap to zero. */
  method IncrementCounter(counter: array<byte>)
    requires counter.Length == 16
    modifies counter
    ensures counter[..] == Inc32(old(counter[..]))
  {
    ghost var c: Block := counter[..];
    assert c[12..16] == c[12..] && counter[16..] == [];
    var i := 15;
    while i >= 12
      invariant 11 <= i <= 15
      invariant counter[..i + 1] == c[..i + 1]
      invariant Inc32(c) == c[..12] + IncBytes(c[12..i + 1]) + counter[i + 1..]
    {
      var nonzero := IncrementByte(counter, i, c);
      if nonzero {
        return;
      }
      i := i - 1;
    }
  }

  /** `++counter[i] != 0` in the loop of `incrementCounter`, with bytes
      i + 1 .. 15 already wrapped to zero: either the increment is complete
      or byte i has wrapped too. */
  method IncrementByte(counter: array<byte>, i: nat, ghost c: Block) returns (nonzero: bool)
    requires counter.Length == 16 && 12 <= i <= 15
    requires counter[..i + 1] == c[..i + 1]
    requires Inc32(c) == c[..12] + IncBytes(c[12..i + 1]) + counter[i + 1..]
    modifies counter
    ensures nonzero ==> counter[..] == Inc32(c)
    ensures !nonzero ==> counter[..i] == c[..i] && Inc32(c) == c[..12] + IncBytes(c[12..i]) + counter[i..]
  {
    ghost var before := counter[..];
    var b := counter[i];
    counter[i] := (b as int + 1) % 256;
    nonzero := counter[i] != 0;
    assert counter[..] == before[i := (before[i] as int + 1) % 256];
    IncrementByteValues(c, before, counter[..], i);
  }

  /** IncrementByte on values: byte i of before gains one modulo 256. */
  lemma IncrementByteValues(c: Block, before: seq<byte>, after: seq<byte>, i: nat)
    requires |before| == 16 && 12 <= i <= 15
    requires before[..i + 1] == c[..i + 1]
    requires Inc32(c) == c[..12] + IncBytes(c[12..i + 1]) + before[i + 1..]
    requires after == before[i := (before[i] as int + 1) % 256]
    ensures after[i] != 0 ==> after == Inc32(c)
    ensures after[i] == 0 ==> after[..i] == c[..i] && Inc32(c) == c[..12] + IncBytes(c[12..i]) + after[i..]
  {
    var s := c[12..i + 1];
    SliceParts(c, i);
    assert before[i] == before[..i + 1][i] == c[i];
    IncBytesLast(s);
    assert after[..i] == before[..i] == c[..i] by {
      assert before[..i] == before[..i + 1][..i];
    }
    assert after[i + 1..] == before[i + 1..];
    assert after == after[..i] + [after[i]] + after[i + 1..];
    if after[i] != 0 {
      assert IncBytes(s) == c[12..i] + [after[i]];
      assert c[..i] == c[..12] + c[12..i];
    } else {
      assert after[i..] == [0] + before[i + 1..];
    }
  }

  /** c[12 .. i + 1] is c[12 .. i] followed by c[i]. */
  lemma SliceParts(c: Block, i: nat)
    requires 12 <= i <= 15
    ensures c[12..i + 1][..i - 12] == c[12..i] && c[12..i + 1][i - 12] == c[i] && |c[12..i + 1]| == i - 11
  {
  }

  // ---------------------------------------------------------------------
  // ghash

  /** `memset(block, 0, 16); memcpy(block, data + off, size);` */
  method LoadChunk(block: array<byte>, data: array<byte>, off: nat, size: nat)
    requires block.Length == 16 && size <= 16 && off + size <= data.Length && block != data
    modifies block
    ensures block[..] == data[off..off + size] + Zeros(16 - size)
  {
    Clear(block);
    for k := 0 to size
      invariant forall m :: 0 <= m < k ==> block[m] == data[off + m]
      invariant forall m :: k <= m < 16 ==> block[m] == 0
    {
      block[k] := data[off + k];
    }
    assert block[..] == data[off..off + size] + Zeros(16 - size);
  }

  /** One of the two chunk loops of `ghash`: each zero-padded chunk of the
      first len bytes of data is xored into y, then `gfmul(y, h, y)`. */
  method FoldChunks(h: array<byte>, data: array<byte>, len: nat, y: array<byte>, block: array<byte>)
    requires h.Length == 16 && y.Length == 16 && block.Length == 16 && len <= data.Length
    requires y != block && y != h && block != h && y != data && block != data
    modifies y, block
    ensures y[..] == Fold(InPlaceProduct, h[..], old(y[..]), PadBlocks(data[..len]))
  {
    ghost var y0: Block := y[..];
    ghost var hs: Block := h[..];
    ghost var xs := PadBlocks(data[..len]);
    var blocks := (len + 15) / 16;
    for i := 0 to blocks
      invariant y[..] == Fold(InPlaceProduct, hs, y0, xs[..i])
    {
      var blockSize := if i == blocks - 1 then len - i * 16 else 16;
      FoldChunk(h, data, len, y, block, i, blockSize);
      assert xs[..i + 1][..i] == xs[..i];
    }
    assert xs[..blocks] == xs;
  }

  /** One iteration of a chunk loop: chunk i, of blockSize bytes, zero-padded
      into block, xored into y, and y multiplied in place. */
  method FoldChunk(h: array<byte>, data: array<byte>, len: nat, y: array<byte>, block: array<byte>,
                   i: nat, blockSize: nat)
    requires h.Length == 16 && y.Length == 16 && block.Length == 16 && len <= data.Length
    requires y != block && y != h && block != h && y != data && block != data
    requires i < ChunkCount(len) && blockSize == if i == ChunkCount(len) - 1 then len - i * 16 else 16
    modifies y, block
    ensures y[..] == InPlaceProduct(XorBytes(old(y[..]), PadBlocks(data[..len])[i]), h[..])
  {
    LoadChunk(block, data, i * 16, blockSize);
    assert block[..] == PadBlocks(data[..len])[i] by {
      assert data[..len][16 * i..16 * i + blockSize] == data[i * 16..i * 16 + blockSize];
    }
    XorInto(y, block);
    GfMul(y, h, y);
  }

  /** The length loop of `ghash`: the uint64_t bit lengths, byte i being
      `(bits >> (56 - i*8)) & 0xFF`. */
  method StoreLengths(block: array<byte>, aadLen: nat, ciphertextLen: nat)
    requires block.Length == 16
    modifies block
    ensures block[..] == LengthBlock(aadLen, ciphertextLen)
  {
    var aadBits := (aadLen * 8) % 0x1_0000_0000_0000_0000;
    var cipherBits := (ciphertextLen * 8) % 0x1_0000_0000_0000_0000;
    ghost var a := Modes.ToBytes(aadBits, 8);
    ghost var c := Modes.ToBytes(cipherBits, 8);
    for i := 0 to 8
      invariant forall m :: 0 <= m < i ==> block[m] == a[m] && block[m + 8] == c[m]
    {
      block[i] := Modes.ShrBytes(aadBits, 7 - i) % 256;
      block[i + 8] := Modes.ShrBytes(cipherBits, 7 - i) % 256;
      Modes.ToBytesAt(aadBits, 8, i);
      Modes.ToBytesAt(cipherBits, 8, i);
    }
    assert block[..] == a + c;
  }

  /** `ghash(h, aad, aad_len, ciphertext, ciphertext_len, output)`. The
      result is written to output only at the end, so output may be any of
      the inputs. */
  method Ghash(h: array<byte>, aad: array<byte>, aadLen: nat, ciphertext: array<byte>, ciphertextLen: nat,
               output: array<byte>)
    requires h.Length == 16 && output.Length == 16
    requires aadLen <= aad.Length && ciphertextLen <= ciphertext.Length
    modifies output
    ensures output[..] == GcmSpec.Ghash(InPlaceProduct, old(h[..]), old(aad[..aadLen]), old(ciphertext[..ciphertextLen]))
  {
    ghost var hs: Block := h[..];
    ghost var a := aad[..aadLen];
    ghost var c := ciphertext[..ciphertextLen];
    var y := new byte[16](_ => 0);
    var block := new byte[16](_ => 0);
    assert y[..] == Zeros(16);
    FoldChunks(h, aad, aadLen, y, block);
    FoldChunks(h, ciphertext, ciphertextLen, y, block);
    FoldConcat(InPlaceProduct, hs, Zeros(16), PadBlocks(a), PadBlocks(c));
    StoreLengths(block, aadLen, ciphertextLen);
    ghost var before: Block := y[..];
    XorInto(y, block);
    GfMul(y, h, y);
    ghost var xs := GhashInput(a, c);
    assert xs[..|xs| - 1] == PadBlocks(a) + PadBlocks(c);
    assert y[..] == InPlaceProduct(XorBytes(before, xs[|xs| - 1]), hs);
    CopyBlock(y, output);
  }

  // ---------------------------------------------------------------------
  // generateInitialCounter

  /** `generateInitialCounter(iv, iv_len, counter)`. The model asks for
      counter and iv to be different buffers, as `memcpy` does. */
  method GenerateInitialCounter(iv: array<byte>, ivLen: nat, counter: array<byte>)
    requires ivLen <= iv.Length && counter.Length == 16 && counter != iv
    modifies counter
    ensures counter[..] == InitialCounter(old(iv[..ivLen]))
  {
    if ivLen == 12 {
      for k := 0 to 12
        invariant forall m :: 0 <= m < k ==> counter[m] == iv[m]
      {
        counter[k] := iv[k];
      }
      counter[12] := 0;
      counter[13] := 0;
      counter[14] := 0;
      counter[15] := 1;
      assert counter[..] == iv[..ivLen] + [0, 0, 0, 1];
    } else {
      var zeroBlock := new byte[16](_ => 0);
      assert zeroBlock[..] == Zeros(16);
      var none := new byte[0];
      Ghash(zeroBlock, iv, ivLen, none, 0, counter);
      assert none[..0] == [];
    }
  }

  // ---------------------------------------------------------------------
  // The counter-mode loop of encrypt and decrypt

  /** One chunk of the counter-mode loop: the counter block is encrypted
      into the keystream buffer ks, and output[off + j] gets input[off + j]
      xored with keystream byte j, for j < n. */
  method CounterChunk(key: Block, counter: array<byte>, ks: array<byte>, input: array<byte>, output: array<byte>,
                      off: nat, n: nat, ghost f: Block -> Block)
    requires IsEncryption(f, key)
    requires counter.Length == 16 && ks.Length == 16 && n <= 16 && off + n <= input.Length && off + n <= output.Length
    requires output != input && output != ks && output != counter && ks != counter && ks != input
    modifies ks, output
    ensures forall m :: off <= m < off + n ==> output[m] == Xor8(input[m], f(counter[..])[m - off])
    ensures forall m :: 0 <= m < output.Length && !(off <= m < off + n) ==> output[m] == old(output[m])
  {
    ghost var e := f(counter[..]);
    assert counter[0..16] == counter[..];
    EncryptAs(counter, 0, ks, 0, key, f);
    assert ks[..] == ks[0..16] == e;
    for j := 0 to n
      invariant ks[..] == e
      invariant forall m :: off <= m < off + j ==> output[m] == Xor8(input[m], e[m - off])
      invariant forall m :: 0 <= m < output.Length && !(off <= m < off + j) ==> output[m] == old(output[m])
    {
      assert ks[j] == e[j];
      output[off + j] := Xor8(input[off + j], ks[j]);
    }
  }

  lemma KeystreamAt(f: Block -> Block, icb: Block, x: seq<byte>, i: nat, k: nat)
    requires 16 * i <= k < 16 * i + 16 && k < |x|
    ensures KeystreamXor(f, icb, x, k) == Xor8(x[k], f(IncN(icb, i))[k - 16 * i])
  {
    assert k / 16 == i && k % 16 == k - 16 * i;
  }

  /** One pass of the full-block loop: block i of the output, then the
      counter advanced. */
  method CounterBlock(key: Block, counter: array<byte>, eCounter: array<byte>, input: array<byte>, len: nat,
                      output: array<byte>, i: nat, ghost f: Block -> Block, ghost icb: Block, ghost x: seq<byte>,
                      ghost out0: seq<byte>)
    requires IsEncryption(f, key)
    requires counter.Length == 16 && eCounter.Length == 16 && 16 * (i + 1) <= len <= input.Length
    requires len <= output.Length && |out0| == output.Length && x == input[..len]
    requires output != input && output != eCounter && output != counter && eCounter != counter && eCounter != input
    requires counter[..] == IncN(icb, i)
    requires forall k :: 0 <= k < 16 * i ==> output[k] == KeystreamXor(f, icb, x, k)
    requires forall k :: 16 * i <= k < output.Length ==> output[k] == out0[k]
    modifies counter, eCounter, output
    ensures counter[..] == IncN(icb, i + 1)
    ensures forall k :: 0 <= k < 16 * (i + 1) ==> output[k] == KeystreamXor(f, icb, x, k)
    ensures forall k :: 16 * (i + 1) <= k < output.Length ==> output[k] == out0[k]
  {
    CounterChunk(key, counter, eCounter, input, output, 16 * i, 16, f);
    forall k | 16 * i <= k < 16 * i + 16
      ensures output[k] == KeystreamXor(f, icb, x, k)
    {
      KeystreamAt(f, icb, x, i, k);
    }
    IncrementCounter(counter);
  }

  /** The full-block loop and the partial last block of `encrypt` (and,
      identically, of `decrypt`), starting from the counter block given. */
  method CounterMode(key: Block, counter: array<byte>, input: array<byte>, len: nat, output: array<byte>,
                     ghost f: Block -> Block)
    requires IsEncryption(f, key)
    requires counter.Length == 16 && len <= input.Length && len <= output.Length
    requires output != input && output != counter && counter != input
    modifies counter, output
    ensures output[..len] == Gctr(f, old(counter[..]), input[..len])
    ensures output[len..] == old(output[len..])
  {
    ghost var icb: Block := counter[..];
    ghost var x := input[..len];
    ghost var out0 := output[..];
    var blocks := len / 16;
    var remaining := len % 16;
    var eCounter := new byte[16];
    for i := 0 to blocks
      invariant counter[..] == IncN(icb, i)
      invariant forall k :: 0 <= k < 16 * i ==> output[k] == KeystreamXor(f, icb, x, k)
      invariant forall k :: 16 * i <= k < output.Length ==> output[k] == out0[k]
    {
      CounterBlock(key, counter, eCounter, input, len, output, i, f, icb, x, out0);
    }
    if remaining > 0 {
      CounterChunk(key, counter, eCounter, input, output, 16 * blocks, remaining, f);
      forall k | 16 * blocks <= k < len
        ensures output[k] == KeystreamXor(f, icb, x, k)
      {
        KeystreamAt(f, icb, x, blocks, k);
      }
    }
    assert output[..len] == Gctr(f, icb, x);
  }

  // ---------------------------------------------------------------------
  // encrypt and decrypt

  /** `SM4_GCM::encrypt`. thrown is true when it throws `invalid_argument`
      (tag length outside 12..16), and then nothing is written. The model
      asks for the two output buffers to be apart from each other and from
      the inputs. */
  method Encrypt(key: Block, iv: array<byte>, ivLen: nat, aad: array<byte>, aadLen: nat,
                 plaintext: array<byte>, plaintextLen: nat, ciphertext: array<byte>, tag: array<byte>, tagLen: nat)
    returns (thrown: bool)
    requires ivLen <= iv.Length && aadLen <= aad.Length && plaintextLen <= plaintext.Length
    requires plaintextLen <= ciphertext.Length && (12 <= tagLen <= 16 ==> tagLen <= tag.Length)
    requires ciphertext != tag && ciphertext != iv && ciphertext != aad && ciphertext != plaintext
    requires tag != iv && tag != aad && tag != plaintext
    modifies ciphertext, tag
    ensures thrown <==> tagLen < 12 || tagLen > 16
    ensures thrown ==> unchanged(ciphertext) && unchanged(tag)
    ensures !thrown ==> Seal(Encryptor(key), InPlaceProduct, iv[..ivLen], aad[..aadLen], plaintext[..plaintextLen], tagLen)
                        == Some(Sealed(ciphertext[..plaintextLen], tag[..tagLen]))
    ensures !thrown ==> ciphertext[plaintextLen..] == old(ciphertext[plaintextLen..]) && tag[tagLen..] == old(tag[tagLen..])
  {
    if tagLen < 12 || tagLen > 16 {
      return true;
    }
    SealInto(key, iv, ivLen, aad, aadLen, plaintext, plaintextLen, ciphertext, tag, tagLen, Encryptor(key));
    return false;
  }

  /** H = E(0^128), J0, E(J0) and the counter a copy of J0 advanced once:
      the first three steps of `encrypt` and `decrypt`. */
  method Setup(key: Block, iv: array<byte>, ivLen: nat, ghost f: Block -> Block)
    returns (h: array<byte>, eCounter0: array<byte>, current: array<byte>)
    requires IsEncryption(f, key) && ivLen <= iv.Length
    ensures fresh(h) && fresh(eCounter0) && fresh(current)
    ensures h.Length == 16 && eCounter0.Length == 16 && current.Length == 16
    ensures h != eCounter0 && h != current && eCounter0 != current
    ensures h[..] == f(Zeros(16))
    ensures eCounter0[..] == f(InitialCounter(iv[..ivLen]))
    ensures current[..] == Inc32(InitialCounter(iv[..ivLen]))
  {
    var zeroBlock := new byte[16](_ => 0);
    assert zeroBlock[..] == Zeros(16);
    h := EncryptNew(key, zeroBlock, f);
    var counter := new byte[16];
    GenerateInitialCounter(iv, ivLen, counter);
    eCounter0 := EncryptNew(key, counter, f);
    current := new byte[16];
    CopyBlock(counter, current);
    IncrementCounter(current);
  }

  /** `SM4::encrypt(block, out, key)` into a new 16-byte buffer. */
  method EncryptNew(key: Block, block: array<byte>, ghost f: Block -> Block) returns (out: array<byte>)
    requires IsEncryption(f, key) && block.Length == 16
    ensures fresh(out) && out.Length == 16 && out[..] == f(block[..])
  {
    out := new byte[16];
    assert block[0..16] == block[..];
    EncryptAs(block, 0, out, 0, key, f);
    assert out[..] == out[0..16];
  }

  /** `tag[i] = e_counter0[i] ^ s[i]` for i < tagLen. */
  method StoreTag(eCounter0: array<byte>, s: array<byte>, tag: array<byte>, tagLen: nat)
    requires eCounter0.Length == 16 && s.Length == 16 && tagLen <= 16 && tagLen <= tag.Length
    requires tag != eCounter0 && tag != s
    modifies tag
    ensures tag[..tagLen] == XorBytes(eCounter0[..], s[..])[..tagLen]
    ensures tag[tagLen..] == old(tag[tagLen..])
  {
    for i := 0 to tagLen
      invariant forall m :: 0 <= m < i ==> tag[m] == Xor8(eCounter0[m], s[m])
      invariant forall m :: i <= m < tag.Length ==> tag[m] == old(tag[m])
    {
      tag[i] := Xor8(eCounter0[i], s[i]);
    }
  }

  /** Steps 1 to 6 of `encrypt` for a valid tag length. */
  method SealInto(key: Block, iv: array<byte>, ivLen: nat, aad: array<byte>, aadLen: nat,
                  plaintext: array<byte>, plaintextLen: nat, ciphertext: array<byte>, tag: array<byte>, tagLen: nat,
                  ghost f: Block -> Block)
    requires IsEncryption(f, key) && 12 <= tagLen <= 16 && tagLen <= tag.Length
    requires ivLen <= iv.Length && aadLen <= aad.Length && plaintextLen <= plaintext.Length && plaintextLen <= ciphertext.Length
    requires ciphertext != tag && ciphertext != iv && ciphertext != aad && ciphertext != plaintext
    requires tag != iv && tag != aad && tag != plaintext
    modifies ciphertext, tag
    ensures Seal(f, InPlaceProduct, iv[..ivLen], aad[..aadLen], plaintext[..plaintextLen], tagLen)
            == Some(Sealed(ciphertext[..plaintextLen], tag[..tagLen]))
    ensures ciphertext[plaintextLen..] == old(ciphertext[plaintextLen..]) && tag[tagLen..] == old(tag[tagLen..])
  {
    var h, eCounter0, current := Setup(key, iv, ivLen, f);
    CounterMode(key, current, plaintext, plaintextLen, ciphertext, f);
    var s := new byte[16];
    Ghash(h, aad, aadLen, ciphertext, plaintextLen, s);
    StoreTag(eCounter0, s, tag, tagLen);
  }

  /** `SM4_GCM::decrypt`. The tag is compared over tagLen bytes, which the
      code does not check (so 0 is accepted); the model asks for
      tagLen <= 16, beyond which the code reads past its 16-byte buffer.
      On a mismatch nothing is written. */
  method Decrypt(key: Block, iv: array<byte>, ivLen: nat, aad: array<byte>, aadLen: nat,
                 ciphertext: array<byte>, ciphertextLen: nat, tag: array<byte>, tagLen: nat, plaintext: array<byte>)
    returns (ok: bool)
    requires ivLen <= iv.Length && aadLen <= aad.Length && ciphertextLen <= ciphertext.Length
    requires tagLen <= 16 && tagLen <= tag.Length && ciphertextLen <= plaintext.Length
    requires plaintext != iv && plaintext != aad && plaintext != ciphertext && plaintext != tag
    modifies plaintext
    ensures ok <==> Open(Encryptor(key), InPlaceProduct, iv[..ivLen], aad[..aadLen], ciphertext[..ciphertextLen], tag[..tagLen]).Some?
    ensures ok ==> Open(Encryptor(key), InPlaceProduct, iv[..ivLen], aad[..aadLen], ciphertext[..ciphertextLen], tag[..tagLen])
                   == Some(plaintext[..ciphertextLen])
    ensures !ok ==> unchanged(plaintext)
    ensures plaintext[ciphertextLen..] == old(plaintext[ciphertextLen..])
  {
    ok := OpenInto(key, iv, ivLen, aad, aadLen, ciphertext, ciphertextLen, tag, tagLen, plaintext, Encryptor(key));
  }

  /** `memcmp(a, b, n) == 0`. */
  method BytesEqual(a: array<byte>, b: array<byte>, n: nat) returns (eq: bool)
    requires n <= a.Length && n <= b.Length
    ensures eq <==> a[..n] == b[..n]
  {
    for i := 0 to n
      invariant a[..i] == b[..i]
    {
      if a[i] != b[i] {
        assert a[..n][i] != b[..n][i];
        return false;
      }
      assert a[..i + 1] == a[..i] + [a[i]] && b[..i + 1] == b[..i] + [b[i]];
    }
    return true;
  }

  method OpenInto(key: Block, iv: array<byte>, ivLen: nat, aad: array<byte>, aadLen: nat,
                  ciphertext: array<byte>, ciphertextLen: nat, tag: array<byte>, tagLen: nat, plaintext: array<byte>,
                  ghost f: Block -> Block)
    returns (ok: bool)
    requires IsEncryption(f, key)
    requires ivLen <= iv.Length && aadLen <= aad.Length && ciphertextLen <= ciphertext.Length
    requires tagLen <= 16 && tagLen <= tag.Length && ciphertextLen <= plaintext.Length
    requires plaintext != iv && plaintext != aad && plaintext != ciphertext && plaintext != tag
    modifies plaintext
    ensures ok <==> Open(f, InPlaceProduct, iv[..ivLen], aad[..aadLen], ciphertext[..ciphertextLen], tag[..tagLen]).Some?
    ensures ok ==> Open(f, InPlaceProduct, iv[..ivLen], aad[..aadLen], ciphertext[..ciphertextLen], tag[..tagLen])
                   == Some(plaintext[..ciphertextLen])
    ensures !ok ==> unchanged(plaintext)
    ensures plaintext[ciphertextLen..] == old(plaintext[ciphertextLen..])
  {
    var h, eCounter0, current := Setup(key, iv, ivLen, f);
    var s := new byte[16];
    Ghash(h, aad, aadLen, ciphertext, ciphertextLen, s);
    var computedTag := new byte[16](_ => 0);
    StoreTag(eCounter0, s, computedTag, tagLen);
    ok := BytesEqual(computedTag, tag, tagLen);
    if !ok {
      return;
    }
    CounterMode(key, current, ciphertext, ciphertextLen, plaintext, f);
  }
}
