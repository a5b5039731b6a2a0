/** The padding and the five modes of operation of Project-1/sm4.py, over
    an arbitrary 16-byte block function E (SM4 under one key in that file).
    Each mode is written the way the Python loop runs: blocks in order, one
    call of the block function per block, and the exception the loop would
    raise as an `Err`. Python's `zip` truncates to the shorter operand
    (Words.ZipXor), and slicing clamps at the end of the data. */
module Modes {
  import opened Wrappers
  import opened Words

  // ---------------------------------------------------------------------
  // Lists of byte strings

  /** `b''.join(bs)`. */
  function Join(bs: seq<seq<byte>>): seq<byte>
    decreases |bs|
  {
    if bs == [] then [] else Join(bs[..|bs| - 1]) + bs[|bs| - 1]
  }

  lemma JoinAppend(bs: seq<seq<byte>>, x: seq<byte>)
    ensures Join(bs + [x]) == Join(bs) + x
  {
    assert (bs + [x])[..|bs|] == bs;
  }

  lemma {:induction false} JoinConcat(xs: seq<seq<byte>>, ys: seq<seq<byte>>)
    ensures Join(xs + ys) == Join(xs) + Join(ys)
    decreases |ys|
  {
    if ys == [] {
      assert xs + ys == xs;
    } else {
      var front := ys[..|ys| - 1];
      assert xs + ys == (xs + front) + [ys[|ys| - 1]];
      JoinAppend(xs + front, ys[|ys| - 1]);
      JoinConcat(xs, front);
      JoinAppend(front, ys[|ys| - 1]);
    }
  }

  /** Prefixing the list an unfinished loop has built to the result of the
      rest of the loop; an exception discards it. */
  function Prepend<T>(done: seq<T>, rest: Result<seq<T>, PyError>): Result<seq<T>, PyError>
  {
    match rest
    case Ok(v) => Ok(done + v)
    case Err(e) => Err(e)
  }

  lemma PrependPrepend<T>(a: seq<T>, b: seq<T>, rest: Result<seq<T>, PyError>)
    ensures Prepend(a, Prepend(b, rest)) == Prepend(a + b, rest)
  {
    if rest.Ok? {
      assert a + (b + rest.value) == (a + b) + rest.value;
    }
  }

  lemma PrependNothing<T>(rest: Result<seq<T>, PyError>)
    ensures Prepend([], rest) == rest
  {
    if rest.Ok? {
      assert [] + rest.value == rest.value;
    }
  }

  /** `b''.join(res)` once the loop is over, unless it raised. */
  function JoinResult(r: Result<seq<seq<byte>>, PyError>): Result<seq<byte>, PyError>
  {
    match r
    case Ok(bs) => Ok(Join(bs))
    case Err(e) => Err(e)
  }

  // ---------------------------------------------------------------------
  // pad, unpad, _split_blocks

  /** `pad(data)`: PKCS#7 (section 6.3 of RFC 5652) with 16-byte blocks. */
  function Pad(data: seq<byte>): (r: seq<byte>)
    ensures |r| % 16 == 0 && |data| < |r| <= |data| + 16
    ensures r[..|data|] == data
    ensures forall i :: |data| <= i < |r| ==> r[i] == |r| - |data|
  {
    var n := 16 - |data| % 16;
    data + seq(n, _ => n)
  }

  /** `unpad(data)`: `data[:-data[-1]]`. The last byte is trusted: an empty
      input raises IndexError, a last byte of 0 gives `data[:0]`, and a last
      byte larger than the data clamps to the empty string. */
  function Unpad(data: seq<byte>): (r: Result<seq<byte>, PyError>)
    ensures r.Err? <==> |data| == 0
    ensures r.Err? ==> r.error == IndexError
    ensures r.Ok? ==> |r.value| <= |data| && r.value == data[..|r.value|]
    ensures r.Ok? && 0 < data[|data| - 1] <= |data| ==> |r.value| == |data| - data[|data| - 1]
    ensures r.Ok? && !(0 < data[|data| - 1] <= |data|) ==> r.value == []
  {
    if |data| == 0 then Err(IndexError)
    else
      var n := data[|data| - 1];
      if n == 0 || n > |data| then Ok([]) else Ok(data[..|data| - n])
  }

  lemma UnpadPad(data: seq<byte>)
    ensures Unpad(Pad(data)) == Ok(data)
  {
    var p := Pad(data);
    assert p[|p| - 1] == |p| - |data|;
  }

  /** `_split_blocks(data)`: the slices data[i:i + 16] for i = 0, 16, …
      below len(data). */
  function SplitBlocks(data: seq<byte>): (r: seq<seq<byte>>)
    ensures Join(r) == data
    ensures |r| == (|data| + 15) / 16
    ensures forall i :: 0 <= i < |r| ==> 0 < |r[i]| <= 16
    ensures forall i :: 0 <= i < |r| - 1 ==> |r[i]| == 16
    decreases |data|
  {
    if |data| == 0 then []
    else if |data| <= 16 then
      assert Join([data]) == Join([]) + data;
      [data]
    else
      var rest := SplitBlocks(data[16..]);
      JoinConcat([data[..16]], rest);
      assert Join([data[..16]]) == Join([]) + data[..16];
      [data[..16]] + rest
  }

  /** Splitting a join of full blocks gives the blocks back. */
  lemma {:induction false} SplitJoin(bs: seq<seq<byte>>)
    requires forall i :: 0 <= i < |bs| ==> |bs[i]| == 16
    ensures SplitBlocks(Join(bs)) == bs
    decreases |bs|
  {
    if bs != [] {
      var rest := bs[1..];
      assert bs == [bs[0]] + rest;
      JoinConcat([bs[0]], rest);
      assert Join([bs[0]]) == Join([]) + bs[0];
      var d := Join(bs);
      assert d[..16] == bs[0] && d[16..] == Join(rest);
      SplitJoin(rest);
      if |d| <= 16 {
        assert rest == [] by {
          if rest != [] {
            JoinFull(rest);
          }
        }
      } else {
        JoinFull(bs);
      }
    }
  }

  /** A non-empty join of full blocks is longer than 16 unless it is one block. */
  lemma {:induction false} JoinFull(bs: seq<seq<byte>>)
    requires forall i :: 0 <= i < |bs| ==> |bs[i]| == 16
    ensures |Join(bs)| == 16 * |bs|
    decreases |bs|
  {
    if bs != [] {
      JoinFull(bs[..|bs| - 1]);
    }
  }

  // ---------------------------------------------------------------------
  // ECB

  /** One block function call per list entry, as `_crypt_block(key, blk)`
      in a generator: struct.error at the first entry that is not 16 bytes. */
  function CryptEach(E: Block -> Block, bs: seq<seq<byte>>): (r: Result<seq<seq<byte>>, PyError>)
    decreases |bs|
  {
    if bs == [] then Ok([])
    else if |bs[0]| != 16 then Err(StructError)
    else Prepend([E(bs[0])], CryptEach(E, bs[1..]))
  }

  /** `encrypt_ecb`: the blocks of the padded plaintext, each through E. */
  function EcbEncrypt(E: Block -> Block, plaintext: seq<byte>): Result<seq<byte>, PyError>
  {
    JoinResult(CryptEach(E, SplitBlocks(Pad(plaintext))))
  }

  /** `decrypt_ecb`: each block through D, then unpad. */
  function EcbDecrypt(D: Block -> Block, ciphertext: seq<byte>): Result<seq<byte>, PyError>
  {
    match JoinResult(CryptEach(D, SplitBlocks(ciphertext)))
    case Err(e) => Err(e)
    case Ok(m) => Unpad(m)
  }

  /** On full blocks CryptEach succeeds, with one full block out per block in. */
  lemma {:induction false} CryptEachFull(E: Block -> Block, bs: seq<seq<byte>>)
    requires forall i :: 0 <= i < |bs| ==> |bs[i]| == 16
    ensures CryptEach(E, bs).Ok? && |CryptEach(E, bs).value| == |bs|
    ensures forall i :: 0 <= i < |bs| ==> CryptEach(E, bs).value[i] == E(bs[i])
    decreases |bs|
  {
    if bs != [] {
      CryptEachFull(E, bs[1..]);
    }
  }

  /** Every block of the padded plaintext is full. */
  lemma PaddedBlocks(plaintext: seq<byte>)
    ensures forall i :: 0 <= i < |SplitBlocks(Pad(plaintext))| ==> |SplitBlocks(Pad(plaintext))[i]| == 16
  {
    var p := Pad(plaintext);
    var bs := SplitBlocks(p);
    if |bs| > 0 {
      JoinFull(bs[..|bs| - 1]);
      assert bs == bs[..|bs| - 1] + [bs[|bs| - 1]];
      JoinAppend(bs[..|bs| - 1], bs[|bs| - 1]);
    }
  }

  /** ECB encryption never raises and its output is as long as the padded
      plaintext. */
  lemma EcbEncryptLength(E: Block -> Block, plaintext: seq<byte>)
    ensures EcbEncrypt(E, plaintext).Ok?
    ensures |EcbEncrypt(E, plaintext).value| == |Pad(plaintext)|
  {
    var bs := SplitBlocks(Pad(plaintext));
    PaddedBlocks(plaintext);
    CryptEachFull(E, bs);
    JoinFull(CryptEach(E, bs).value);
    JoinFull(bs);
  }

  /** ECB decryption inverts ECB encryption when D inverts E. */
  lemma EcbRoundTrip(E: Block -> Block, D: Block -> Block, plaintext: seq<byte>)
    requires forall b: Block :: D(E(b)) == b
    ensures EcbEncrypt(E, plaintext).Ok?
    ensures EcbDecrypt(D, EcbEncrypt(E, plaintext).value) == Ok(plaintext)
  {
    var bs := SplitBlocks(Pad(plaintext));
    PaddedBlocks(plaintext);
    CryptEachFull(E, bs);
    var cs := CryptEach(E, bs).value;
    SplitJoin(cs);
    CryptEachFull(D, cs);
    var ds := CryptEach(D, cs).value;
    assert ds == bs;
    UnpadPad(plaintext);
  }

  /** ECB decryption raises struct.error on a ciphertext whose length is
      not a multiple of 16, and IndexError (in unpad) on an empty one. */
  lemma EcbDecryptErrors(D: Block -> Block, ciphertext: seq<byte>)
    ensures |ciphertext| % 16 != 0 ==> EcbDecrypt(D, ciphertext) == Err(StructError)
    ensures ciphertext == [] ==> EcbDecrypt(D, ciphertext) == Err(IndexError)
  {
    if |ciphertext| % 16 != 0 {
      ShortLastBlock(D, SplitBlocks(ciphertext), 0);
    }
  }

  /** CryptEach raises when a block after position i is short. */
  lemma {:induction false} ShortLastBlock(E: Block -> Block, bs: seq<seq<byte>>, i: nat)
    requires i < |bs| && |Join(bs)| % 16 != 0
    requires forall j :: 0 <= j < |bs| - 1 ==> |bs[j]| == 16
    ensures CryptEach(E, bs[i..]) == Err(StructError)
    decreases |bs| - i
  {
    if i == |bs| - 1 {
      if |bs[i]| == 16 {
        JoinFull(bs);
        assert false;
      }
    } else {
      assert bs[i..][1..] == bs[i + 1..];
      ShortLastBlock(E, bs, i + 1);
    }
  }

  // ---------------------------------------------------------------------
  // CBC

  /** The loop of `encrypt_cbc` from the current block on: each block is
      xored with prev (zip, so a short prev shortens it), encrypted, and the
      result becomes prev. */
  function CbcEncryptBlocks(E: Block -> Block, bs: seq<seq<byte>>, prev: seq<byte>): Result<seq<seq<byte>>, PyError>
    decreases |bs|
  {
    if bs == [] then Ok([])
    else
      var x := ZipXor(bs[0], prev);
      if |x| != 16 then Err(StructError)
      else
        var c := E(x);
        Prepend([c], CbcEncryptBlocks(E, bs[1..], c))
  }

  /** The loop of `decrypt_cbc` from the current block on: each block is
      decrypted and xored with prev (zip), and the block becomes prev. */
  function CbcDecryptBlocks(D: Block -> Block, bs: seq<seq<byte>>, prev: seq<byte>): Result<seq<seq<byte>>, PyError>
    decreases |bs|
  {
    if bs == [] then Ok([])
    else if |bs[0]| != 16 then Err(StructError)
    else Prepend([ZipXor(D(bs[0]), prev)], CbcDecryptBlocks(D, bs[1..], bs[0]))
  }

  /** `encrypt_cbc(key, plaintext, iv)`. */
  function CbcEncrypt(E: Block -> Block, plaintext: seq<byte>, iv: seq<byte>): Result<seq<byte>, PyError>
  {
    JoinResult(CbcEncryptBlocks(E, SplitBlocks(Pad(plaintext)), iv))
  }

  /** `decrypt_cbc(key, ciphertext, iv)`. */
  function CbcDecrypt(D: Block -> Block, ciphertext: seq<byte>, iv: seq<byte>): Result<seq<byte>, PyError>
  {
    match JoinResult(CbcDecryptBlocks(D, SplitBlocks(ciphertext), iv))
    case Err(e) => Err(e)
    case Ok(m) => Unpad(m)
  }

  lemma {:induction false} CbcBlocksRoundTrip(E: Block -> Block, D: Block -> Block, bs: seq<seq<byte>>, prev: seq<byte>)
    requires forall b: Block :: D(E(b)) == b
    requires forall i :: 0 <= i < |bs| ==> |bs[i]| == 16
    requires |prev| >= 16
    ensures CbcEncryptBlocks(E, bs, prev).Ok?
    ensures |CbcEncryptBlocks(E, bs, prev).value| == |bs|
    ensures CbcDecryptBlocks(D, CbcEncryptBlocks(E, bs, prev).value, prev) == Ok(bs)
    decreases |bs|
  {
    if bs != [] {
      var x: Block := ZipXor(bs[0], prev);
      var c := E(x);
      CbcBlocksRoundTrip(E, D, bs[1..], c);
      var rest := CbcEncryptBlocks(E, bs[1..], c).value;
      var cs := [c] + rest;
      assert cs[0] == c && cs[1..] == rest;
      ZipXorCancel(bs[0], prev);
      assert ZipXor(D(cs[0]), prev) == bs[0];
      assert bs == [bs[0]] + bs[1..];
    }
  }

  /** CBC encryption fails exactly when the IV is shorter than 16 bytes (an
      IV longer than that is cut to its first 16 bytes by zip); otherwise its
      output is as long as the padded plaintext. */
  lemma CbcEncryptLength(E: Block -> Block, plaintext: seq<byte>, iv: seq<byte>)
    ensures CbcEncrypt(E, plaintext, iv).Err? <==> |iv| < 16
    ensures |iv| < 16 ==> CbcEncrypt(E, plaintext, iv) == Err(StructError)
    ensures |iv| >= 16 ==> |CbcEncrypt(E, plaintext, iv).value| == |Pad(plaintext)|
  {
    var bs := SplitBlocks(Pad(plaintext));
    PaddedBlocks(plaintext);
    if |iv| >= 16 {
      CbcLength(E, bs, iv);
      JoinFull(CbcEncryptBlocks(E, bs, iv).value);
      JoinFull(bs);
    }
  }

  lemma {:induction false} CbcLength(E: Block -> Block, bs: seq<seq<byte>>, prev: seq<byte>)
    requires forall i :: 0 <= i < |bs| ==> |bs[i]| == 16
    requires |prev| >= 16
    ensures CbcEncryptBlocks(E, bs, prev).Ok?
    ensures |CbcEncryptBlocks(E, bs, prev).value| == |bs|
    ensures forall i :: 0 <= i < |bs| ==> |CbcEncryptBlocks(E, bs, prev).value[i]| == 16
    decreases |bs|
  {
    if bs != [] {
      var x: Block := ZipXor(bs[0], prev);
      CbcLength(E, bs[1..], E(x));
    }
  }

  /** CBC decryption inverts CBC encryption for an IV of at least 16 bytes. */
  lemma CbcRoundTrip(E: Block -> Block, D: Block -> Block, plaintext: seq<byte>, iv: seq<byte>)
    requires forall b: Block :: D(E(b)) == b
    requires |iv| >= 16
    ensures CbcEncrypt(E, plaintext, iv).Ok?
    ensures CbcDecrypt(D, CbcEncrypt(E, plaintext, iv).value, iv) == Ok(plaintext)
  {
    var bs := SplitBlocks(Pad(plaintext));
    PaddedBlocks(plaintext);
    CbcLength(E, bs, iv);
    CbcBlocksRoundTrip(E, D, bs, iv);
    SplitJoin(CbcEncryptBlocks(E, bs, iv).value);
    UnpadPad(plaintext);
  }

  /** CBC decryption raises struct.error on a ciphertext whose length is
      not a multiple of 16, and IndexError on an empty one. */
  lemma CbcDecryptErrors(D: Block -> Block, ciphertext: seq<byte>, iv: seq<byte>)
    ensures |ciphertext| % 16 != 0 ==> CbcDecrypt(D, ciphertext, iv) == Err(StructError)
    ensures ciphertext == [] ==> CbcDecrypt(D, ciphertext, iv) == Err(IndexError)
  {
    if |ciphertext| % 16 != 0 {
      CbcShortBlock(D, SplitBlocks(ciphertext), 0, iv);
    }
  }

  lemma {:induction false} CbcShortBlock(D: Block -> Block, bs: seq<seq<byte>>, i: nat, prev: seq<byte>)
    requires i < |bs| && |Join(bs)| % 16 != 0
    requires forall j :: 0 <= j < |bs| - 1 ==> |bs[j]| == 16
    ensures CbcDecryptBlocks(D, bs[i..], prev) == Err(StructError)
    decreases |bs| - i
  {
    if i == |bs| - 1 {
      if |bs[i]| == 16 {
        JoinFull(bs);
        assert false;
      }
    } else {
      assert bs[i..][1..] == bs[i + 1..];
      CbcShortBlock(D, bs, i + 1, bs[i]);
    }
  }

  // ---------------------------------------------------------------------
  // CFB

  /** The loop of `encrypt_cfb` from the current block on: prev is
      encrypted (struct.error unless it is 16 bytes), xored into the block
      (zip), and the result becomes prev. */
  function CfbEncryptBlocks(E: Block -> Block, bs: seq<seq<byte>>, prev: seq<byte>): Result<seq<seq<byte>>, PyError>
    decreases |bs|
  {
    if bs == [] then Ok([])
    else if |prev| != 16 then Err(StructError)
    else
      var enc := ZipXor(bs[0], E(prev));
      Prepend([enc], CfbEncryptBlocks(E, bs[1..], enc))
  }

  /** The loop of `decrypt_cfb`: as encryption, but the ciphertext block
      becomes prev. */
  function CfbDecryptBlocks(E: Block -> Block, bs: seq<seq<byte>>, prev: seq<byte>): Result<seq<seq<byte>>, PyError>
    decreases |bs|
  {
    if bs == [] then Ok([])
    else if |prev| != 16 then Err(StructError)
    else Prepend([ZipXor(bs[0], E(prev))], CfbDecryptBlocks(E, bs[1..], bs[0]))
  }

  /** `encrypt_cfb(key, plaintext, iv)`. */
  function CfbEncrypt(E: Block -> Block, plaintext: seq<byte>, iv: seq<byte>): Result<seq<byte>, PyError>
  {
    JoinResult(CfbEncryptBlocks(E, SplitBlocks(Pad(plaintext)), iv))
  }

  /** `decrypt_cfb(key, ciphertext, iv)`: CFB decryption uses the block
      encryption too. */
  function CfbDecrypt(E: Block -> Block, ciphertext: seq<byte>, iv: seq<byte>): Result<seq<byte>, PyError>
  {
    match JoinResult(CfbDecryptBlocks(E, SplitBlocks(ciphertext), iv))
    case Err(e) => Err(e)
    case Ok(m) => Unpad(m)
  }

  lemma {:induction false} CfbBlocksRoundTrip(E: Block -> Block, bs: seq<seq<byte>>, prev: seq<byte>)
    requires forall i :: 0 <= i < |bs| ==> |bs[i]| == 16
    requires |prev| == 16
    ensures CfbEncryptBlocks(E, bs, prev).Ok?
    ensures |CfbEncryptBlocks(E, bs, prev).value| == |bs|
    ensures forall i :: 0 <= i < |bs| ==> |CfbEncryptBlocks(E, bs, prev).value[i]| == 16
    ensures CfbDecryptBlocks(E, CfbEncryptBlocks(E, bs, prev).value, prev) == Ok(bs)
    decreases |bs|
  {
    if bs != [] {
      var enc := ZipXor(bs[0], E(prev));
      CfbBlocksRoundTrip(E, bs[1..], enc);
      var rest := CfbEncryptBlocks(E, bs[1..], enc).value;
      var cs := [enc] + rest;
      assert cs[0] == enc && cs[1..] == rest;
      ZipXorCancel(bs[0], E(prev));
      assert bs == [bs[0]] + bs[1..];
    }
  }

  /** CFB encryption fails exactly when the IV is not 16 bytes; otherwise
      its output is as long as the padded plaintext. */
  lemma CfbEncryptLength(E: Block -> Block, plaintext: seq<byte>, iv: seq<byte>)
    ensures CfbEncrypt(E, plaintext, iv).Err? <==> |iv| != 16
    ensures |iv| != 16 ==> CfbEncrypt(E, plaintext, iv) == Err(StructError)
    ensures |iv| == 16 ==> |CfbEncrypt(E, plaintext, iv).value| == |Pad(plaintext)|
  {
    var bs := SplitBlocks(Pad(plaintext));
    PaddedBlocks(plaintext);
    if |iv| == 16 {
      CfbBlocksRoundTrip(E, bs, iv);
      JoinFull(CfbEncryptBlocks(E, bs, iv).value);
      JoinFull(bs);
    }
  }

  /** CFB decryption inverts CFB encryption for a 16-byte IV. */
  lemma CfbRoundTrip(E: Block -> Block, plaintext: seq<byte>, iv: seq<byte>)
    requires |iv| == 16
    ensures CfbEncrypt(E, plaintext, iv).Ok?
    ensures CfbDecrypt(E, CfbEncrypt(E, plaintext, iv).value, iv) == Ok(plaintext)
  {
    var bs := SplitBlocks(Pad(plaintext));
    PaddedBlocks(plaintext);
    CfbBlocksRoundTrip(E, bs, iv);
    SplitJoin(CfbEncryptBlocks(E, bs, iv).value);
    UnpadPad(plaintext);
  }

  /** CFB decryption raises IndexError on an empty ciphertext and
      struct.error on any other ciphertext unless the IV is 16 bytes; with a
      16-byte IV it accepts every non-empty ciphertext, a short last block
      included. */
  lemma CfbDecryptErrors(E: Block -> Block, ciphertext: seq<byte>, iv: seq<byte>)
    ensures ciphertext == [] ==> CfbDecrypt(E, ciphertext, iv) == Err(IndexError)
    ensures ciphertext != [] && |iv| != 16 ==> CfbDecrypt(E, ciphertext, iv) == Err(StructError)
    ensures CfbDecrypt(E, ciphertext, iv).Ok? <==> ciphertext != [] && |iv| == 16
  {
    var bs := SplitBlocks(ciphertext);
    if ciphertext != [] && |iv| == 16 {
      CfbDecryptOk(E, bs, 0, iv);
      assert bs[0..] == bs;
      var m := Join(CfbDecryptBlocks(E, bs, iv).value);
      CfbDecryptLength(E, bs, iv);
      assert |m| > 0 by {
        JoinPositive(CfbDecryptBlocks(E, bs, iv).value);
      }
    }
  }

  /** With a 16-byte prev and every block but the last full, the CFB
      decryption loop never raises. */
  lemma {:induction false} CfbDecryptOk(E: Block -> Block, bs: seq<seq<byte>>, i: nat, prev: seq<byte>)
    requires i <= |bs| && |prev| == 16
    requires forall j :: 0 <= j < |bs| - 1 ==> |bs[j]| == 16
    ensures CfbDecryptBlocks(E, bs[i..], prev).Ok?
    decreases |bs| - i
  {
    if i == |bs| {
      assert bs[i..] == [];
    } else {
      assert bs[i..][0] == bs[i] && bs[i..][1..] == bs[i + 1..];
      if i + 1 < |bs| {
        CfbDecryptOk(E, bs, i + 1, bs[i]);
      } else {
        assert bs[i + 1..] == [];
      }
    }
  }

  /** The CFB decryption loop keeps the length of every block of at most 16 bytes. */
  lemma {:induction false} CfbDecryptLength(E: Block -> Block, bs: seq<seq<byte>>, prev: seq<byte>)
    requires CfbDecryptBlocks(E, bs, prev).Ok? && forall i :: 0 <= i < |bs| ==> |bs[i]| <= 16
    ensures |CfbDecryptBlocks(E, bs, prev).value| == |bs|
    ensures forall i :: 0 <= i < |bs| ==> |CfbDecryptBlocks(E, bs, prev).value[i]| == |bs[i]|
    decreases |bs|
  {
    if bs != [] {
      CfbDecryptLength(E, bs[1..], bs[0]);
    }
  }

  /** A join of a non-empty list whose first entry is non-empty is non-empty. */
  lemma {:induction false} JoinPositive(bs: seq<seq<byte>>)
    requires bs != [] && |bs[0]| > 0
    ensures |Join(bs)| > 0
    decreases |bs|
  {
    if |bs| > 1 {
      JoinPositive(bs[..|bs| - 1]);
    }
  }

  // ---------------------------------------------------------------------
  // Python integers as big-endian bytes

  function Pow256(n: nat): (r: nat)
    ensures r >= 1
  {
    if n == 0 then 1 else 256 * Pow256(n - 1)
  }

  /** `int.from_bytes(s, 'big')`, for any length of s. */
  function FromBytes(s: seq<byte>): nat
    decreases |s|
  {
    if s == [] then 0 else FromBytes(s[..|s| - 1]) * 256 + s[|s| - 1]
  }

  /** `n.to_bytes(len, 'big')` does not raise OverflowError: the len
      bytes of ToBytes still hold all of n. FitsBelow shows that this is
      n < 256^len; stating it as a round trip keeps proofs about the CTR
      counter free of both the constant 2^128 and a chain of divisions. */
  predicate Fits(n: nat, len: nat)
  {
    FromBytes(ToBytes(n, len)) == n
  }

  /** A number fits in len bytes exactly when it is below 256^len, so that
      from_bytes undoes to_bytes on those numbers. */
  lemma {:induction false} FitsBelow(n: nat, len: nat)
    ensures Fits(n, len) <==> n < Pow256(len)
    decreases len
  {
    if len > 0 {
      FitsBelow(n / 256, len - 1);
    }
  }

  /** The len big-endian bytes of n modulo 256^len. */
  function ToBytes(n: nat, len: nat): (r: seq<byte>)
    ensures |r| == len
  {
    if len == 0 then [] else ToBytes(n / 256, len - 1) + [n % 256]
  }

  /** `x >> (8 * m)` on an unsigned integer: m whole bytes shifted out. */
  function ShrBytes(x: nat, m: nat): nat
  {
    if m == 0 then x else ShrBytes(x / 256, m - 1)
  }

  /** Byte k of `n.to_bytes(len, 'big')` is `(n >> 8 * (len - 1 - k)) & 0xFF`. */
  lemma {:induction false} ToBytesAt(n: nat, len: nat, k: nat)
    requires k < len
    ensures ToBytes(n, len)[k] == ShrBytes(n, len - 1 - k) % 256
    decreases len
  {
    if k < len - 1 {
      ToBytesAt(n / 256, len - 1, k);
    }
  }

  /** `n.to_bytes(len, 'big')`: OverflowError when n does not fit. */
  function ToBytesChecked(n: nat, len: nat): (r: Result<seq<byte>, PyError>)
    ensures r.Ok? <==> Fits(n, len)
    ensures r.Ok? ==> r.value == ToBytes(n, len) && FromBytes(r.value) == n
    ensures r.Err? ==> r.error == OverflowError
  {
    if Fits(n, len) then Ok(ToBytes(n, len)) else Err(OverflowError)
  }

  // ---------------------------------------------------------------------
  // CTR and OFB

  /** The loop of `encrypt_ctr` from the current offset on: the next chunk
      of at most 16 bytes is xored with as many bytes of E(counter as 16
      big-endian bytes), and the counter goes up by one. to_bytes raises
      OverflowError once the counter reaches 2^128. */
  function CtrStream(E: Block -> Block, data: seq<byte>, counter: nat): (r: Result<seq<byte>, PyError>)
    ensures r.Ok? ==> |r.value| == |data|
    decreases |data|
  {
    if |data| == 0 then Ok([])
    else if !Fits(counter, 16) then Err(OverflowError)
    else
      var n := Min(16, |data|);
      var keystream := E(ToBytes(counter, 16));
      Prepend(ZipXor(data[..n], keystream[..n]), CtrStream(E, data[n..], counter + 1))
  }

  /** One turn of the CTR loop at a given offset, as the Python loop slices:
      appending the xored chunk to the chunks done so far and going on from
      the next offset with the next counter gives the same result. */
  lemma CtrStreamAt(E: Block -> Block, data: seq<byte>, offset: nat, counter: nat, done: seq<seq<byte>>)
    requires offset < |data| && Fits(counter, 16)
    ensures var blk := data[offset..Min(offset + 16, |data|)];
      var chunk := ZipXor(blk, E(ToBytes(counter, 16))[..|blk|]);
      Prepend(Join(done + [chunk]), CtrStream(E, data[Min(offset + 16, |data|)..], counter + 1))
      == Prepend(Join(done), CtrStream(E, data[offset..], counter))
  {
    var rest := data[offset..];
    var blk := data[offset..Min(offset + 16, |data|)];
    var chunk := ZipXor(blk, E(ToBytes(counter, 16))[..|blk|]);
    assert rest[..Min(16, |rest|)] == blk;
    assert rest[Min(16, |rest|)..] == data[Min(offset + 16, |data|)..];
    JoinAppend(done, chunk);
    PrependPrepend(Join(done), chunk, CtrStream(E, data[Min(offset + 16, |data|)..], counter + 1));
  }

  /** `encrypt_ctr(key, plaintext, iv)`; `decrypt_ctr` is the same call. */
  function CtrEncrypt(E: Block -> Block, plaintext: seq<byte>, iv: seq<byte>): Result<seq<byte>, PyError>
  {
    CtrStream(E, plaintext, FromBytes(iv))
  }

  /** The counter the CTR loop uses for the last chunk of len bytes when it
      starts from counter (counter itself when there is no chunk). */
  function LastCounter(counter: nat, len: nat): nat
  {
    if len == 0 then counter else counter + (len - 1) / 16
  }

  /** The CTR loop raises exactly when the counter of its last chunk is 2^128
      or more, and then raises OverflowError. */
  lemma {:induction false} CtrStreamError(E: Block -> Block, data: seq<byte>, counter: nat)
    ensures CtrStream(E, data, counter).Err? <==> |data| > 0 && !Fits(LastCounter(counter, |data|), 16)
    ensures CtrStream(E, data, counter).Err? ==> CtrStream(E, data, counter).error == OverflowError
    decreases |data|
  {
    if |data| > 16 && Fits(counter, 16) {
      CtrStreamError(E, data[16..], counter + 1);
      CtrErrorLong(E, data, counter);
    } else if |data| > 0 && Fits(counter, 16) {
      CtrErrorShort(E, data, counter);
    } else if |data| > 0 {
      FitsDown(counter, LastCounter(counter, |data|), 16);
    }
  }

  lemma CtrErrorShort(E: Block -> Block, data: seq<byte>, counter: nat)
    requires 0 < |data| <= 16 && Fits(counter, 16)
    ensures CtrStream(E, data, counter).Ok? && LastCounter(counter, |data|) == counter
  {
    assert data[|data|..] == [];
  }

  lemma CtrErrorLong(E: Block -> Block, data: seq<byte>, counter: nat)
    requires 16 < |data| && Fits(counter, 16)
    ensures CtrStream(E, data, counter) == Prepend(ZipXor(data[..16], E(ToBytes(counter, 16))[..16]), CtrStream(E, data[16..], counter + 1))
    ensures LastCounter(counter, |data|) == LastCounter(counter + 1, |data[16..]|)
  {
  }

  /** A smaller number fits whenever a larger one does. */
  lemma FitsDown(m: nat, n: nat, len: nat)
    requires m <= n
    ensures Fits(n, len) ==> Fits(m, len)
  {
    FitsBelow(m, len);
    FitsBelow(n, len);
  }

  /** One chunk of a stream cipher: the output is the xored chunk followed
      by the rest, and xoring its first n bytes again restores the chunk. */
  lemma ChunkCancel(data: seq<byte>, n: nat, key: Block, rest: seq<byte>)
    requires n == Min(16, |data|)
    ensures var out := ZipXor(data[..n], key[..n]) + rest;
      |out| >= n && out[..n] == ZipXor(data[..n], key[..n]) && out[n..] == rest &&
      ZipXor(out[..n], key[..n]) == data[..n]
    ensures data[..n] + data[n..] == data
  {
    ZipXorCancel(data[..n], key[..n]);
  }

  /** Applying the CTR loop twice from the same counter gives the data back. */
  lemma {:induction false} CtrStreamInvolution(E: Block -> Block, data: seq<byte>, counter: nat)
    requires CtrStream(E, data, counter).Ok?
    ensures CtrStream(E, CtrStream(E, data, counter).value, counter) == Ok(data)
    decreases |data|
  {
    if |data| > 0 {
      var n := Min(16, |data|);
      var keystream := E(ToBytes(counter, 16));
      var rest := CtrStream(E, data[n..], counter + 1).value;
      CtrStreamInvolution(E, data[n..], counter + 1);
      ChunkCancel(data, n, keystream, rest);
    }
  }

  /** CTR keeps the length, and decrypting (encrypting again) with the same
      key and IV gives the plaintext back. */
  lemma CtrInvolution(E: Block -> Block, plaintext: seq<byte>, iv: seq<byte>)
    requires CtrEncrypt(E, plaintext, iv).Ok?
    ensures |CtrEncrypt(E, plaintext, iv).value| == |plaintext|
    ensures CtrEncrypt(E, CtrEncrypt(E, plaintext, iv).value, iv) == Ok(plaintext)
  {
    CtrStreamInvolution(E, plaintext, FromBytes(iv));
  }

  /** The loop of `encrypt_ofb` from the current offset on: output is
      encrypted again (struct.error unless it is 16 bytes) and the next chunk
      is xored with as many of its bytes. */
  function OfbStream(E: Block -> Block, data: seq<byte>, output: seq<byte>): (r: Result<seq<byte>, PyError>)
    ensures r.Ok? ==> |r.value| == |data|
    decreases |data|
  {
    if |data| == 0 then Ok([])
    else if |output| != 16 then Err(StructError)
    else
      var n := Min(16, |data|);
      var next := E(output);
      Prepend(ZipXor(data[..n], next[..n]), OfbStream(E, data[n..], next))
  }

  /** One turn of the OFB loop at a given offset, as the Python loop slices. */
  lemma OfbStreamAt(E: Block -> Block, data: seq<byte>, offset: nat, output: Block)
    requires offset < |data|
    ensures var blk := data[offset..Min(offset + 16, |data|)];
      OfbStream(E, data[offset..], output)
      == Prepend(ZipXor(blk, E(output)[..|blk|]), OfbStream(E, data[Min(offset + 16, |data|)..], E(output)))
  {
    var rest := data[offset..];
    assert rest[..Min(16, |rest|)] == data[offset..Min(offset + 16, |data|)];
    assert rest[Min(16, |rest|)..] == data[Min(offset + 16, |data|)..];
  }

  /** `encrypt_ofb(key, plaintext, iv)`; `decrypt_ofb` is the same call. */
  function OfbEncrypt(E: Block -> Block, plaintext: seq<byte>, iv: seq<byte>): Result<seq<byte>, PyError>
  {
    OfbStream(E, plaintext, iv)
  }

  /** OFB raises (struct.error) exactly when there is data and the IV is
      not 16 bytes. */
  lemma OfbError(E: Block -> Block, plaintext: seq<byte>, iv: seq<byte>)
    ensures OfbEncrypt(E, plaintext, iv).Err? <==> |plaintext| > 0 && |iv| != 16
    ensures OfbEncrypt(E, plaintext, iv).Err? ==> OfbEncrypt(E, plaintext, iv).error == StructError
  {
    if |plaintext| > 0 && |iv| == 16 {
      OfbStreamOk(E, plaintext, iv);
    }
  }

  lemma {:induction false} OfbStreamOk(E: Block -> Block, data: seq<byte>, output: Block)
    ensures OfbStream(E, data, output).Ok?
    decreases |data|
  {
    if |data| > 0 {
      OfbStreamOk(E, data[Min(16, |data|)..], E(output));
    }
  }

  lemma {:induction false} OfbStreamInvolution(E: Block -> Block, data: seq<byte>, output: seq<byte>)
    requires OfbStream(E, data, output).Ok?
    ensures OfbStream(E, OfbStream(E, data, output).value, output) == Ok(data)
    decreases |data|
  {
    if |data| > 0 {
      var n := Min(16, |data|);
      var next := E(output);
      var rest := OfbStream(E, data[n..], next).value;
      OfbStreamInvolution(E, data[n..], next);
      ChunkCancel(data, n, next, rest);
    }
  }

  /** OFB keeps the length, and applying it twice with the same key and IV
      gives the plaintext back. */
  lemma OfbInvolution(E: Block -> Block, plaintext: seq<byte>, iv: seq<byte>)
    requires OfbEncrypt(E, plaintext, iv).Ok?
    ensures |OfbEncrypt(E, plaintext, iv).value| == |plaintext|
    ensures OfbEncrypt(E, OfbEncrypt(E, plaintext, iv).value, iv) == Ok(plaintext)
  {
    OfbStreamInvolution(E, plaintext, iv);
  }
}
