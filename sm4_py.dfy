/** The SM4 implementation of Project-1/sm4.py: Python lists of integers
    that `_key_expansion` and `_crypt_block` grow by appending. Keys and
    blocks are `bytes` of any length; `struct.unpack('>4I', …)` raises
    `struct.error` unless there are exactly 16. */
module Sm4Py {
  import opened Wrappers
  import opened Words
  import opened Sm4

  /** `_round_func(x, rk)`: x[0] ^ L(tau(x[1] ^ x[2] ^ x[3] ^ rk)). */
  function RoundFunc(x: seq<word>, rk: word): word
    requires |x| == 4
  {
    Xor32(x[0], L(Tau(Xor32(Xor32(Xor32(x[1], x[2]), x[3]), rk))))
  }

  /** Appending `_round_func(X[-4:], rk)` shifts the window one round. */
  lemma RoundFuncIsRound(x: seq<word>, rk: word)
    requires |x| == 4
    ensures Round(T, rk, State(x[0], x[1], x[2], x[3])) == State(x[1], x[2], x[3], RoundFunc(x, rk))
    ensures RoundFunc(x, rk) == F(x[0], x[1], x[2], x[3], rk)
  {
    RoundIsF(rk, x[0], x[1], x[2], x[3]);
  }

  /** `_key_expansion(key)`: K starts as MK ^ FK and grows by 32 appended
      words; the result is K[4:]. */
  method KeyExpansion(key: seq<byte>) returns (r: Result<seq<word>, PyError>)
    ensures |key| != 16 ==> r == Err(StructError)
    ensures |key| == 16 ==> r == Ok(RoundKeys(key))
  {
    if |key| != 16 {
      return Err(StructError);
    }
    var mk := BeWords(key);
    var k := KeyInit(mk);
    k := AppendKeyWords(TPrime, k, mk);
    return Ok(k[4..]);
  }

  /** The loop of `_key_expansion`, for a mixing function tp (T' there). */
  method AppendKeyWords(tp: word -> word, k0: seq<word>, ghost mk: seq<word>) returns (k: seq<word>)
    requires |mk| == 4 && k0 == KeyInit(mk)
    ensures k == KeyWords(tp, mk, 32)
  {
    k := k0;
    for i := 0 to 32
      invariant k == KeyWords(tp, mk, i)
    {
      var temp := Xor32(Xor32(Xor32(k[i + 1], k[i + 2]), k[i + 3]), CK(i));
      KeyStepOf(tp, k, i, k[i], k[i + 1], k[i + 2], k[i + 3]);
      KeyWordsNext(tp, mk, i);
      k := k + [Xor32(k[i], tp(temp))];
    }
  }

  /** The loop of `_crypt_block`: X grows by one word per round key, the
      new word computed from the last four as `_round_func` does, with the
      mixing function t (T there). */
  method AppendRounds(t: word -> word, x0: seq<word>, rks: seq<word>) returns (x: seq<word>)
    requires |x0| == 4 && |rks| == 32
    ensures |x| == 36
    ensures State(x[32], x[33], x[34], x[35]) == Run(t, State(x0[0], x0[1], x0[2], x0[3]), rks)
  {
    x := x0;
    ghost var s0 := State(x0[0], x0[1], x0[2], x0[3]);
    for i := 0 to 32
      invariant |x| == 4 + i
      invariant State(x[i], x[i + 1], x[i + 2], x[i + 3]) == Run(t, s0, rks[..i])
    {
      var w := x[|x| - 4..];
      RunNext(t, s0, rks, i);
      x := x + [Xor32(w[0], t(Xor32(Xor32(Xor32(w[1], w[2]), w[3]), rks[i])))];
    }
    assert rks[..32] == rks;
  }

  /** `_crypt_block(key, block, decrypt)`: struct.error for a key or a
      block that is not 16 bytes (the key is unpacked first); otherwise the
      SM4 encryption, or with decrypt the decryption, of the block. */
  method CryptBlock(key: seq<byte>, block: seq<byte>, decrypt: bool) returns (r: Result<Block, PyError>)
    ensures |key| != 16 || |block| != 16 ==> r == Err(StructError)
    ensures |key| == 16 && |block| == 16 ==>
      r == Ok(if decrypt then DecryptBlock(key, block) else EncryptBlock(key, block))
  {
    var keys := KeyExpansion(key);
    if keys.Err? {
      return Err(keys.error);
    }
    var rk := keys.value;
    if decrypt {
      rk := Reverse(rk);
    }
    if |block| != 16 {
      return Err(StructError);
    }
    var x := AppendRounds(T, BeWords(block), rk);
    return Ok(BeBytes([x[35], x[34], x[33], x[32]]));
  }

  /** `_crypt_block` with its result on a 16-byte key named by f (the
      encryption or decryption of that key). The modes call this, so that
      the cipher's definition stays out of their loops. */
  method CryptBlockAs(key: seq<byte>, block: seq<byte>, decrypt: bool, ghost f: Block -> Block)
    returns (r: Result<Block, PyError>)
    requires |key| == 16 ==> IsCipher(f, key, decrypt)
    ensures |key| != 16 || |block| != 16 ==> r == Err(StructError)
    ensures |key| == 16 && |block| == 16 ==> r == Ok(f(block))
  {
    if |key| == 16 && |block| == 16 {
      ghost var b: Block := block;
      if decrypt {
        assert f(b) == DecryptBlock(key, b);
      } else {
        assert f(b) == EncryptBlock(key, b);
      }
    }
    r := CryptBlock(key, block, decrypt);
  }
}
