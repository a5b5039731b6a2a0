/** The C++ class `SM4` (the copy in the GCM program, and the copy in the
    stand-alone program, which has the same members except encryptBlocks
    and decryptBlocks): its key expansion fills the 36-word array
    k, and encrypt/decrypt fill the 36-word array x and write 16 bytes to
    the caller's buffer. Each method is proved to compute the functions of
    module Sm4. The single-expression helpers (leftRotate, tau, t, tPrime,
    f) are the functions Sm4.Tau, Sm4.T, Sm4.TPrime and Sm4.F themselves. */
module Sm4Cpp {
  import opened Words
  import opened Sm4

  /** `keyExpansion`: MK read big-endian, k[0..4) = MK ^ FK, then the 32
      recurrence steps; the result is k[4..36). */
  method KeyExpansion(key: Block) returns (rk: seq<word>)
    ensures rk == RoundKeys(key)
    ensures |rk| == 32
  {
    var mk := ReadKey(key);
    var k := new word[36];
    InitKey(mk, k);
    ExpandKey(TPrime, k, mk[..]);
    rk := k[4..];
  }

  /** The first loop of `keyExpansion`: MK[i] read big-endian from key[4 i ..]. */
  method ReadKey(key: Block) returns (mk: array<word>)
    ensures fresh(mk) && mk[..] == BeWords(key)
  {
    mk := new word[4];
    var i := 0;
    while i < 4
      invariant 0 <= i <= 4
      invariant forall j :: 0 <= j < i ==> mk[j] == BeWords(key)[j]
    {
      BeWordsAt(key, i);
      mk[i] := WordOf(key[4 * i], key[4 * i + 1], key[4 * i + 2], key[4 * i + 3]);
      i := i + 1;
    }
  }

  /** The second loop: k[i] = MK[i] ^ FK[i] for i < 4. */
  method InitKey(mk: array<word>, k: array<word>)
    requires mk.Length == 4 && k.Length == 36 && mk != k
    modifies k
    ensures k[..4] == KeyInit(mk[..])
  {
    var i := 0;
    while i < 4
      invariant 0 <= i <= 4
      invariant forall j :: 0 <= j < i ==> k[j] == Xor32(mk[j], FK[j])
    {
      k[i] := Xor32(mk[i], FK[i]);
      i := i + 1;
    }
  }

  /** The 32 recurrence steps of `keyExpansion`, k[i + 4] = k[i] ^
      tp(k[i + 1] ^ k[i + 2] ^ k[i + 3] ^ CK(i)), on k[0..4) = MK ^ FK. The
      loop is proved for any mixing function tp; `keyExpansion` uses
      tPrime. */
  method ExpandKey(tp: word -> word, k: array<word>, ghost mk: seq<word>)
    requires k.Length == 36 && |mk| == 4 && k[..4] == KeyInit(mk)
    modifies k
    ensures k[..] == KeyWords(tp, mk, 32)
  {
    assert k[..4] == KeyWords(tp, mk, 0);
    for i := 0 to 32
      invariant k[..i + 4] == KeyWords(tp, mk, i)
    {
      ExpandStep(tp, k, i, mk);
    }
    assert k[..] == k[..36];
  }

  /** One iteration of the key-schedule loop: k[i + 4] from k[i .. i + 3]. */
  method ExpandStep(tp: word -> word, k: array<word>, i: nat, ghost mk: seq<word>)
    requires k.Length == 36 && |mk| == 4 && i < 32 && k[..i + 4] == KeyWords(tp, mk, i)
    modifies k
    ensures k[..i + 5] == KeyWords(tp, mk, i + 1)
  {
    ghost var before := k[..i + 4];
    var a, b, c, d := k[i], k[i + 1], k[i + 2], k[i + 3];
    KeyStepOf(tp, before, i, a, b, c, d);
    KeyWordsNext(tp, mk, i);
    k[i + 4] := Xor32(a, tp(Xor32(Xor32(Xor32(b, c), d), CK(i))));
    assert k[..i + 5] == before + [k[i + 4]];
  }

  /** The first loop of `encrypt`/`decrypt`: x[0..4) read big-endian from
      input[inOff .. inOff + 16). */
  method LoadWords(input: array<byte>, inOff: nat, x: array<word>)
    requires inOff + 16 <= input.Length && x.Length == 36
    modifies x
    ensures State(x[0], x[1], x[2], x[3]) == Load(input[inOff..inOff + 16])
  {
    ghost var block: Block := input[inOff..inOff + 16];
    ghost var w := BeWords(block);
    var i := 0;
    while i < 4
      invariant 0 <= i <= 4
      invariant forall j :: 0 <= j < i ==> x[j] == w[j]
    {
      var p := inOff + 4 * i;
      assert input[p] == block[4 * i] && input[p + 1] == block[4 * i + 1];
      assert input[p + 2] == block[4 * i + 2] && input[p + 3] == block[4 * i + 3];
      BeWordsAt(block, i);
      x[i] := WordOf(input[p], input[p + 1], input[p + 2], input[p + 3]);
      i := i + 1;
    }
  }

  /** The round loop: x[i + 4] = x[i] ^ t(x[i + 1] ^ x[i + 2] ^ x[i + 3] ^ rks[i])
      for i = 0 .. 31. It is proved for any mixing function t; `encrypt`
      and `decrypt` use t, for which a round is f (Sm4.RoundIsF). */
  method Rounds(t: word -> word, x: array<word>, rks: seq<word>)
    requires x.Length == 36 && |rks| == 32
    modifies x
    ensures State(x[32], x[33], x[34], x[35]) == Run(t, State(old(x[0]), old(x[1]), old(x[2]), old(x[3])), rks)
  {
    ghost var s0 := State(x[0], x[1], x[2], x[3]);
    var i := 0;
    while i < 32
      invariant 0 <= i <= 32
      invariant State(x[i], x[i + 1], x[i + 2], x[i + 3]) == Run(t, s0, rks[..i])
    {
      var x0, x1, x2, x3 := x[i], x[i + 1], x[i + 2], x[i + 3];
      RunNext(t, s0, rks, i);
      x[i + 4] := Xor32(x0, t(Xor32(Xor32(Xor32(x1, x2), x3), rks[i])));
      i := i + 1;
    }
    assert rks[..32] == rks;
  }

  /** The last loop: x[35], x[34], x[33], x[32] written big-endian to
      output[outOff .. outOff + 16); nothing else in output changes. */
  method StoreWords(x: array<word>, output: array<byte>, outOff: nat)
    requires x.Length == 36 && outOff + 16 <= output.Length
    modifies output
    ensures output[..outOff] == old(output[..outOff])
    ensures output[outOff..outOff + 16] == Store(State(x[32], x[33], x[34], x[35]))
    ensures output[outOff + 16..] == old(output[outOff + 16..])
  {
    ghost var ws := [x[35], x[34], x[33], x[32]];
    ghost var result := BeBytes(ws);
    var i := 0;
    while i < 4
      invariant 0 <= i <= 4
      invariant forall j :: 0 <= j < output.Length && !(outOff <= j < outOff + 4 * i) ==> output[j] == old(output[j])
      invariant forall j :: 0 <= j < 4 * i ==> output[outOff + j] == result[j]
    {
      var w := x[35 - i];
      assert w == ws[i];
      BeBytesAt(ws, i);
      output[outOff + 4 * i] := ByteOf(w, 0);
      output[outOff + 4 * i + 1] := ByteOf(w, 1);
      output[outOff + 4 * i + 2] := ByteOf(w, 2);
      output[outOff + 4 * i + 3] := ByteOf(w, 3);
      i := i + 1;
    }
    assert output[outOff..outOff + 16] == result;
  }

  /** The part of `encrypt` and `decrypt` after key expansion, with the
      round keys in the order the rounds use them. The input is read
      completely before the output is written, so the two buffers may be
      the same. */
  method CryptBlock(input: array<byte>, inOff: nat, output: array<byte>, outOff: nat, rks: seq<word>)
    requires inOff + 16 <= input.Length && outOff + 16 <= output.Length && |rks| == 32
    modifies output
    ensures output[..outOff] == old(output[..outOff])
    ensures output[outOff..outOff + 16] == Crypt(rks, old(input[inOff..inOff + 16]))
    ensures output[outOff + 16..] == old(output[outOff + 16..])
  {
    var x := new word[36];
    LoadWords(input, inOff, x);
    Rounds(T, x, rks);
    StoreWords(x, output, outOff);
  }

  /** `encrypt(in, out, key)`: the block at input[inOff..] encrypted into output[outOff..]. */
  method Encrypt(input: array<byte>, inOff: nat, output: array<byte>, outOff: nat, key: Block)
    requires inOff + 16 <= input.Length && outOff + 16 <= output.Length
    modifies output
    ensures output[..outOff] == old(output[..outOff])
    ensures output[outOff..outOff + 16] == EncryptBlock(key, old(input[inOff..inOff + 16]))
    ensures output[outOff + 16..] == old(output[outOff + 16..])
  {
    var rk := KeyExpansion(key);
    CryptBlock(input, inOff, output, outOff, rk);
  }

  /** `decrypt(in, out, key)`: the same rounds with round key rk[31 - i] in round i. */
  method Decrypt(input: array<byte>, inOff: nat, output: array<byte>, outOff: nat, key: Block)
    requires inOff + 16 <= input.Length && outOff + 16 <= output.Length
    modifies output
    ensures output[..outOff] == old(output[..outOff])
    ensures output[outOff..outOff + 16] == DecryptBlock(key, old(input[inOff..inOff + 16]))
    ensures output[outOff + 16..] == old(output[outOff + 16..])
  {
    var rk := KeyExpansion(key);
    var reversed := ReverseKeys(rk);
    CryptBlock(input, inOff, output, outOff, reversed);
  }

  /** The order `decrypt` reads the round keys in: rk[31 - i] in round i. */
  method ReverseKeys(rk: seq<word>) returns (reversed: seq<word>)
    requires |rk| == 32
    ensures reversed == Reverse(rk)
    ensures forall i :: 0 <= i < 32 ==> reversed[i] == rk[31 - i]
  {
    reversed := seq(32, i requires 0 <= i < 32 => rk[31 - i]);
  }

  /** `encryptBlocks`: numBlocks consecutive blocks, block i read from
      input[16 i ..] and encrypted into output[16 i ..]. The round keys the
      C++ computes first are not used; each block expands the key again.
      Input and output may be the same buffer. */
  method EncryptBuffer(input: array<byte>, output: array<byte>, numBlocks: nat, key: Block)
    requires 16 * numBlocks <= input.Length && 16 * numBlocks <= output.Length
    modifies output
    ensures output[..16 * numBlocks] == EncryptBlocks(key, old(input[..16 * numBlocks]))
    ensures output[16 * numBlocks..] == old(output[16 * numBlocks..])
  {
    var unused := KeyExpansion(key);
    BlockLoop(input, output, numBlocks, key, false, Encryptor(key));
  }

  /** `decryptBlocks`: as EncryptBuffer, with decrypt for each block. */
  method DecryptBuffer(input: array<byte>, output: array<byte>, numBlocks: nat, key: Block)
    requires 16 * numBlocks <= input.Length && 16 * numBlocks <= output.Length
    modifies output
    ensures output[..16 * numBlocks] == DecryptBlocks(key, old(input[..16 * numBlocks]))
    ensures output[16 * numBlocks..] == old(output[16 * numBlocks..])
  {
    var unused := KeyExpansion(key);
    BlockLoop(input, output, numBlocks, key, true, Decryptor(key));
  }

  /** The loop shared by `encryptBlocks` and `decryptBlocks`; f stands for
      the block transformation that one call of `encrypt` (or `decrypt`)
      computes. */
  method BlockLoop(input: array<byte>, output: array<byte>, numBlocks: nat, key: Block, decrypt: bool,
                   ghost f: Block -> Block)
    requires 16 * numBlocks <= input.Length && 16 * numBlocks <= output.Length
    requires IsCipher(f, key, decrypt)
    modifies output
    ensures output[..16 * numBlocks] == MapBlocks(f, old(input[..16 * numBlocks]))
    ensures output[16 * numBlocks..] == old(output[16 * numBlocks..])
  {
    ghost var data := input[..16 * numBlocks];
    ghost var target := MapBlocks(f, data);
    var i := 0;
    while i < numBlocks
      invariant 0 <= i <= numBlocks
      invariant forall k :: 0 <= k < 16 * i ==> output[k] == target[k]
      invariant forall k :: 16 * i <= k < output.Length ==> output[k] == old(output[k])
      invariant forall k :: 16 * i <= k < 16 * numBlocks ==> input[k] == data[k]
    {
      BlockStep(input, output, numBlocks, i, key, decrypt, f, data);
      i := i + 1;
    }
    assert output[..16 * numBlocks] == target;
  }

  /** `encrypt` of one block, its result named by f. Stating the result
      through f keeps the cipher's definition out of the loops that call
      this. */
  method EncryptAs(input: array<byte>, inOff: nat, output: array<byte>, outOff: nat, key: Block,
                   ghost f: Block -> Block)
    requires inOff + 16 <= input.Length && outOff + 16 <= output.Length && IsEncryption(f, key)
    modifies output
    ensures output[..outOff] == old(output[..outOff])
    ensures output[outOff..outOff + 16] == f(old(input[inOff..inOff + 16]))
    ensures output[outOff + 16..] == old(output[outOff + 16..])
  {
    ghost var block: Block := input[inOff..inOff + 16];
    assert f(block) == EncryptBlock(key, block);
    Encrypt(input, inOff, output, outOff, key);
  }

  /** `decrypt` of one block, its result named by f. */
  method DecryptAs(input: array<byte>, inOff: nat, output: array<byte>, outOff: nat, key: Block,
                   ghost f: Block -> Block)
    requires inOff + 16 <= input.Length && outOff + 16 <= output.Length && IsDecryption(f, key)
    modifies output
    ensures output[..outOff] == old(output[..outOff])
    ensures output[outOff..outOff + 16] == f(old(input[inOff..inOff + 16]))
    ensures output[outOff + 16..] == old(output[outOff + 16..])
  {
    ghost var block: Block := input[inOff..inOff + 16];
    assert f(block) == DecryptBlock(key, block);
    Decrypt(input, inOff, output, outOff, key);
  }

  /** One iteration: block i encrypted (or decrypted) in place of block i of
      the output; nothing else in the output changes. */
  method BlockStep(input: array<byte>, output: array<byte>, numBlocks: nat, i: nat, key: Block, decrypt: bool,
                   ghost f: Block -> Block, ghost data: seq<byte>)
    requires 16 * numBlocks <= input.Length && 16 * numBlocks <= output.Length && i < numBlocks
    requires |data| == 16 * numBlocks && forall k :: 16 * i <= k < 16 * i + 16 ==> input[k] == data[k]
    requires IsCipher(f, key, decrypt)
    modifies output
    ensures forall k :: 16 * i <= k < 16 * i + 16 ==> output[k] == MapBlocks(f, data)[k]
    ensures forall k :: 0 <= k < output.Length && !(16 * i <= k < 16 * i + 16) ==> output[k] == old(output[k])
  {
    ghost var block: Block := data[16 * i..16 * i + 16];
    assert input[16 * i..16 * i + 16] == block;
    if decrypt {
      DecryptAs(input, 16 * i, output, 16 * i, key, f);
    } else {
      EncryptAs(input, 16 * i, output, 16 * i, key, f);
    }
    MapBlocksAt(f, data, i);
    forall k | 16 * i <= k < 16 * i + 16
      ensures output[k] == MapBlocks(f, data)[k]
    {
      assert output[k] == output[16 * i..16 * i + 16][k - 16 * i];
    }
    assert forall k :: 0 <= k < 16 * i ==> output[k] == output[..16 * i][k];
    assert forall k :: 16 * i + 16 <= k < output.Length ==> output[k] == output[16 * i + 16..][k - 16 * i - 16];
  }
}
