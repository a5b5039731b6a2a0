/** The mode functions of Project-1/sm4.py with their loops. Each
    `encrypt_*`/`decrypt_*` function is a method whose contract is the
    matching specification of Modes with SM4 under the key as the block
    function; its loop is in a second method that names the block function
    f, so that the proof of the loop does not unfold SM4. The key is any
    byte string: one that is not 16 bytes makes the first `_crypt_block`
    call raise `struct.error`, so a mode fails on it as soon as it has a
    block to process. */
module Sm4PyModes {
  import opened Wrappers
  import opened Words
  import opened Sm4
  import opened Sm4Py
  import opened Modes

  // ---------------------------------------------------------------------
  // ECB: generator expressions, so functions

  /** `encrypt_ecb(key, plaintext)`: the padded plaintext always has a
      block, so a key of the wrong length always raises. */
  function EncryptEcb(key: seq<byte>, plaintext: seq<byte>): (r: Result<seq<byte>, PyError>)
    ensures r.Ok? <==> |key| == 16
    ensures r.Ok? ==> |r.value| == |Pad(plaintext)|
    ensures r.Err? ==> r.error == StructError
  {
    if |key| != 16 then
      Err(StructError)
    else
      EcbEncryptLength(Encryptor(key), plaintext);
      EcbEncrypt(Encryptor(key), plaintext)
  }

  /** `decrypt_ecb(key, ciphertext)`: with no block there is no
      `_crypt_block` call, and `unpad(b'')` raises IndexError. */
  function DecryptEcb(key: seq<byte>, ciphertext: seq<byte>): (r: Result<seq<byte>, PyError>)
    ensures |ciphertext| % 16 != 0 ==> r == Err(StructError)
    ensures ciphertext == [] ==> r == Err(IndexError)
    ensures |key| != 16 && ciphertext != [] ==> r == Err(StructError)
  {
    if |key| != 16 then
      if ciphertext == [] then Err(IndexError) else Err(StructError)
    else
      EcbDecryptErrors(Decryptor(key), ciphertext);
      EcbDecrypt(Decryptor(key), ciphertext)
  }

  /** SM4 decryption under a key undoes SM4 encryption under it. */
  lemma CipherInverse(key: Block)
    ensures forall b: Block :: Decryptor(key)(Encryptor(key)(b)) == b
  {
    forall b: Block ensures Decryptor(key)(Encryptor(key)(b)) == b {
      RoundTrip(key, b);
    }
  }

  lemma EcbRoundTripSm4(key: Block, plaintext: seq<byte>)
    ensures DecryptEcb(key, EncryptEcb(key, plaintext).value) == Ok(plaintext)
  {
    CipherInverse(key);
    EcbRoundTrip(Encryptor(key), Decryptor(key), plaintext);
  }

  // ---------------------------------------------------------------------
  // CBC

  /** `encrypt_cbc(key, plaintext, iv)`. */
  method EncryptCbc(key: seq<byte>, plaintext: seq<byte>, iv: seq<byte>) returns (r: Result<seq<byte>, PyError>)
    ensures |key| == 16 ==> r == CbcEncrypt(Encryptor(key), plaintext, iv)
    ensures |key| != 16 ==> r == Err(StructError)
  {
    ghost var f: Block -> Block := if |key| == 16 then Encryptor(key) else b => b;
    r := CbcEncryptLoop(key, plaintext, iv, f);
  }

  method CbcEncryptLoop(key: seq<byte>, plaintext: seq<byte>, iv: seq<byte>, ghost f: Block -> Block)
    returns (r: Result<seq<byte>, PyError>)
    requires |key| == 16 ==> IsEncryption(f, key)
    ensures |key| == 16 ==> r == CbcEncrypt(f, plaintext, iv)
    ensures |key| != 16 ==> r == Err(StructError)
  {
    var padded := Pad(plaintext);
    var blocks := SplitBlocks(padded);
    var res: seq<seq<byte>> := [];
    var prev := iv;
    assert blocks[0..] == blocks;
    PrependNothing(CbcEncryptBlocks(f, blocks, iv));
    for i := 0 to |blocks|
      invariant |key| == 16 ==> Prepend(res, CbcEncryptBlocks(f, blocks[i..], prev)) == CbcEncryptBlocks(f, blocks, iv)
      invariant |key| != 16 ==> i == 0 && res == []
    {
      assert blocks[i..][0] == blocks[i] && blocks[i..][1..] == blocks[i + 1..];
      var blkXor := ZipXor(blocks[i], prev);
      var enc := CryptBlockAs(key, blkXor, false, f);
      if enc.Err? {
        return Err(enc.error);
      }
      PrependPrepend(res, [enc.value], CbcEncryptBlocks(f, blocks[i + 1..], enc.value));
      res := res + [enc.value];
      prev := enc.value;
    }
    assert blocks[|blocks|..] == [] && res + [] == res;
    return Ok(Join(res));
  }

  /** `decrypt_cbc(key, ciphertext, iv)`. */
  method DecryptCbc(key: seq<byte>, ciphertext: seq<byte>, iv: seq<byte>) returns (r: Result<seq<byte>, PyError>)
    ensures |key| == 16 ==> r == CbcDecrypt(Decryptor(key), ciphertext, iv)
    ensures |key| != 16 ==> r == if ciphertext == [] then Err(IndexError) else Err(StructError)
  {
    ghost var f: Block -> Block := if |key| == 16 then Decryptor(key) else b => b;
    r := CbcDecryptLoop(key, ciphertext, iv, f);
  }

  method CbcDecryptLoop(key: seq<byte>, ciphertext: seq<byte>, iv: seq<byte>, ghost f: Block -> Block)
    returns (r: Result<seq<byte>, PyError>)
    requires |key| == 16 ==> IsDecryption(f, key)
    ensures |key| == 16 ==> r == CbcDecrypt(f, ciphertext, iv)
    ensures |key| != 16 ==> r == if ciphertext == [] then Err(IndexError) else Err(StructError)
  {
    var blocks := SplitBlocks(ciphertext);
    var res: seq<seq<byte>> := [];
    var prev := iv;
    assert blocks[0..] == blocks;
    PrependNothing(CbcDecryptBlocks(f, blocks, iv));
    for i := 0 to |blocks|
      invariant |key| == 16 ==> Prepend(res, CbcDecryptBlocks(f, blocks[i..], prev)) == CbcDecryptBlocks(f, blocks, iv)
      invariant |key| != 16 ==> i == 0 && res == []
    {
      assert blocks[i..][0] == blocks[i] && blocks[i..][1..] == blocks[i + 1..];
      var dec := CryptBlockAs(key, blocks[i], true, f);
      if dec.Err? {
        return Err(dec.error);
      }
      PrependPrepend(res, [ZipXor(dec.value, prev)], CbcDecryptBlocks(f, blocks[i + 1..], blocks[i]));
      res := res + [ZipXor(dec.value, prev)];
      prev := blocks[i];
    }
    assert blocks[|blocks|..] == [] && res + [] == res;
    return Unpad(Join(res));
  }

  // ---------------------------------------------------------------------
  // CFB

  /** `encrypt_cfb(key, plaintext, iv)`. */
  method EncryptCfb(key: seq<byte>, plaintext: seq<byte>, iv: seq<byte>) returns (r: Result<seq<byte>, PyError>)
    ensures |key| == 16 ==> r == CfbEncrypt(Encryptor(key), plaintext, iv)
    ensures |key| != 16 ==> r == Err(StructError)
  {
    ghost var f: Block -> Block := if |key| == 16 then Encryptor(key) else b => b;
    r := CfbEncryptLoop(key, plaintext, iv, f);
  }

  method CfbEncryptLoop(key: seq<byte>, plaintext: seq<byte>, iv: seq<byte>, ghost f: Block -> Block)
    returns (r: Result<seq<byte>, PyError>)
    requires |key| == 16 ==> IsEncryption(f, key)
    ensures |key| == 16 ==> r == CfbEncrypt(f, plaintext, iv)
    ensures |key| != 16 ==> r == Err(StructError)
  {
    var padded := Pad(plaintext);
    var blocks := SplitBlocks(padded);
    var res: seq<seq<byte>> := [];
    var prev := iv;
    assert blocks[0..] == blocks;
    PrependNothing(CfbEncryptBlocks(f, blocks, iv));
    for i := 0 to |blocks|
      invariant |key| == 16 ==> Prepend(res, CfbEncryptBlocks(f, blocks[i..], prev)) == CfbEncryptBlocks(f, blocks, iv)
      invariant |key| != 16 ==> i == 0 && res == []
    {
      assert blocks[i..][0] == blocks[i] && blocks[i..][1..] == blocks[i + 1..];
      var output := CryptBlockAs(key, prev, false, f);
      if output.Err? {
        return Err(output.error);
      }
      var enc := ZipXor(blocks[i], output.value);
      PrependPrepend(res, [enc], CfbEncryptBlocks(f, blocks[i + 1..], enc));
      res := res + [enc];
      prev := enc;
    }
    assert blocks[|blocks|..] == [] && res + [] == res;
    return Ok(Join(res));
  }

  /** `decrypt_cfb(key, ciphertext, iv)`. */
  method DecryptCfb(key: seq<byte>, ciphertext: seq<byte>, iv: seq<byte>) returns (r: Result<seq<byte>, PyError>)
    ensures |key| == 16 ==> r == CfbDecrypt(Encryptor(key), ciphertext, iv)
    ensures |key| != 16 ==> r == if ciphertext == [] then Err(IndexError) else Err(StructError)
  {
    ghost var f: Block -> Block := if |key| == 16 then Encryptor(key) else b => b;
    r := CfbDecryptLoop(key, ciphertext, iv, f);
  }

  method CfbDecryptLoop(key: seq<byte>, ciphertext: seq<byte>, iv: seq<byte>, ghost f: Block -> Block)
    returns (r: Result<seq<byte>, PyError>)
    requires |key| == 16 ==> IsEncryption(f, key)
    ensures |key| == 16 ==> r == CfbDecrypt(f, ciphertext, iv)
    ensures |key| != 16 ==> r == if ciphertext == [] then Err(IndexError) else Err(StructError)
  {
    var blocks := SplitBlocks(ciphertext);
    var res: seq<seq<byte>> := [];
    var prev := iv;
    assert blocks[0..] == blocks;
    PrependNothing(CfbDecryptBlocks(f, blocks, iv));
    for i := 0 to |blocks|
      invariant |key| == 16 ==> Prepend(res, CfbDecryptBlocks(f, blocks[i..], prev)) == CfbDecryptBlocks(f, blocks, iv)
      invariant |key| != 16 ==> i == 0 && res == []
    {
      assert blocks[i..][0] == blocks[i] && blocks[i..][1..] == blocks[i + 1..];
      var output := CryptBlockAs(key, prev, false, f);
      if output.Err? {
        return Err(output.error);
      }
      PrependPrepend(res, [ZipXor(blocks[i], output.value)], CfbDecryptBlocks(f, blocks[i + 1..], blocks[i]));
      res := res + [ZipXor(blocks[i], output.value)];
      prev := blocks[i];
    }
    assert blocks[|blocks|..] == [] && res + [] == res;
    return Unpad(Join(res));
  }

  // ---------------------------------------------------------------------
  // CTR and OFB

  /** `encrypt_ctr(key, plaintext, iv)`. */
  method EncryptCtr(key: seq<byte>, plaintext: seq<byte>, iv: seq<byte>) returns (r: Result<seq<byte>, PyError>)
    ensures |key| == 16 ==> r == CtrEncrypt(Encryptor(key), plaintext, iv)
    ensures |key| != 16 ==> r == CtrKeyFailure(plaintext, iv)
  {
    ghost var f: Block -> Block := if |key| == 16 then Encryptor(key) else b => b;
    r := CtrLoop(key, plaintext, iv, f);
  }

  /** `decrypt_ctr(key, ciphertext, iv)`: the same call as encryption. */
  method DecryptCtr(key: seq<byte>, ciphertext: seq<byte>, iv: seq<byte>) returns (r: Result<seq<byte>, PyError>)
    ensures |key| == 16 ==> r == CtrEncrypt(Encryptor(key), ciphertext, iv)
    ensures |key| != 16 ==> r == CtrKeyFailure(ciphertext, iv)
  {
    r := EncryptCtr(key, ciphertext, iv);
  }

  /** CTR under a key that is not 16 bytes: nothing to do without data;
      otherwise the first counter is converted to 16 bytes (OverflowError
      when it does not fit) before `_crypt_block` raises on the key. */
  function CtrKeyFailure(plaintext: seq<byte>, iv: seq<byte>): (r: Result<seq<byte>, PyError>)
    ensures r.Ok? <==> plaintext == []
    ensures r.Err? ==> (r.error == OverflowError <==> !Fits(FromBytes(iv), 16))
  {
    if plaintext == [] then Ok([])
    else if !Fits(FromBytes(iv), 16) then Err(OverflowError)
    else Err(StructError)
  }

  method CtrLoop(key: seq<byte>, plaintext: seq<byte>, iv: seq<byte>, ghost f: Block -> Block)
    returns (r: Result<seq<byte>, PyError>)
    requires |key| == 16 ==> IsEncryption(f, key)
    ensures |key| == 16 ==> r == CtrEncrypt(f, plaintext, iv)
    ensures |key| != 16 ==> r == CtrKeyFailure(plaintext, iv)
  {
    var res: seq<seq<byte>> := [];
    var counter: nat := FromBytes(iv);
    var length := |plaintext|;
    var offset: nat := 0;
    assert plaintext[0..] == plaintext && Join([]) == [];
    PrependNothing(CtrStream(f, plaintext, FromBytes(iv)));
    while offset < length
      invariant |key| == 16 ==>
        Prepend(Join(res), CtrStream(f, plaintext[Min(offset, length)..], counter))
          == CtrStream(f, plaintext, FromBytes(iv))
      invariant |key| != 16 ==> offset == 0 && res == [] && counter == FromBytes(iv)
      decreases length - offset
    {
      var blk := plaintext[offset..Min(offset + 16, length)];
      var counterBytes := ToBytesChecked(counter, 16);
      if counterBytes.Err? {
        return Err(counterBytes.error);
      }
      var keystream := CryptBlockAs(key, counterBytes.value, false, f);
      if keystream.Err? {
        return Err(keystream.error);
      }
      CtrStreamAt(f, plaintext, offset, counter, res);
      counter := counter + 1;
      res := res + [ZipXor(blk, keystream.value[..|blk|])];
      offset := offset + 16;
    }
    assert plaintext[Min(offset, length)..] == [] && Join(res) + [] == Join(res);
    return Ok(Join(res));
  }

  /** `encrypt_ofb(key, plaintext, iv)`. */
  method EncryptOfb(key: seq<byte>, plaintext: seq<byte>, iv: seq<byte>) returns (r: Result<seq<byte>, PyError>)
    ensures |key| == 16 ==> r == OfbEncrypt(Encryptor(key), plaintext, iv)
    ensures |key| != 16 ==> r == if plaintext == [] then Ok([]) else Err(StructError)
  {
    ghost var f: Block -> Block := if |key| == 16 then Encryptor(key) else b => b;
    r := OfbLoop(key, plaintext, iv, f);
  }

  /** `decrypt_ofb(key, ciphertext, iv)`: the same call as encryption. */
  method DecryptOfb(key: seq<byte>, ciphertext: seq<byte>, iv: seq<byte>) returns (r: Result<seq<byte>, PyError>)
    ensures |key| == 16 ==> r == OfbEncrypt(Encryptor(key), ciphertext, iv)
    ensures |key| != 16 ==> r == if ciphertext == [] then Ok([]) else Err(StructError)
  {
    r := EncryptOfb(key, ciphertext, iv);
  }

  method OfbLoop(key: seq<byte>, plaintext: seq<byte>, iv: seq<byte>, ghost f: Block -> Block)
    returns (r: Result<seq<byte>, PyError>)
    requires |key| == 16 ==> IsEncryption(f, key)
    ensures |key| == 16 ==> r == OfbEncrypt(f, plaintext, iv)
    ensures |key| != 16 ==> r == if plaintext == [] then Ok([]) else Err(StructError)
  {
    var res: seq<seq<byte>> := [];
    var output := iv;
    var length := |plaintext|;
    var offset: nat := 0;
    assert plaintext[0..] == plaintext && Join([]) == [];
    PrependNothing(OfbStream(f, plaintext, iv));
    while offset < length
      invariant |key| == 16 ==>
        Prepend(Join(res), OfbStream(f, plaintext[Min(offset, length)..], output))
          == OfbStream(f, plaintext, iv)
      invariant |key| != 16 ==> offset == 0 && res == []
      decreases length - offset
    {
      var blk := plaintext[offset..Min(offset + 16, length)];
      var next := CryptBlockAs(key, output, false, f);
      if next.Err? {
        return Err(next.error);
      }
      OfbStreamAt(f, plaintext, offset, output);
      output := next.value;
      JoinAppend(res, ZipXor(blk, output[..|blk|]));
      PrependPrepend(Join(res), ZipXor(blk, output[..|blk|]), OfbStream(f, plaintext[Min(offset + 16, length)..], output));
      res := res + [ZipXor(blk, output[..|blk|])];
      offset := offset + 16;
    }
    assert plaintext[Min(offset, length)..] == [] && Join(res) + [] == Join(res);
    return Ok(Join(res));
  }
}
