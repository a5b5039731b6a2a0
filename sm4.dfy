/** The SM4 block cipher of GB/T 32907-2016 as pure functions on 32-bit
    words: the S-box layer tau, the linear mixers L (rotations 2/10/18/24)
    and L' (13/23), the MK xor FK / CK key schedule and the 32-round
    unbalanced Feistel network whose last four words are output in reverse.
    The C++ and Python copies in the other SM4 modules are proved equal to
    these functions. */
module Sm4 {
  import opened Words

  /** The S-box of GB/T 32907-2016 section 6.2, the table `sbox` of the
      sources, as one big-endian number of 256 bytes: entry i is byte i,
      counted from the most significant end; the groups between the
      underscores are the 16 rows of the table. */
  const SBOX_TABLE: nat := 0xD690E9FECCE13DB716B614C228FB2C05_2B679A762ABE04C3AA44132649860699_9C4250F491EF987A33540B43EDCFAC62_E4B31CA9C908E89580DF94FA758F3FA6_4707A7FCF37317BA83593C19E6854FA8_686B81B27164DA8BF8EB0F4B70569D35_1E240E5E6358D1A225227C3B01217887_D40046579FD327524C3602E7A0C4C89E_EABF8AD240C738B5A3F7F2CEF96115A1_E0AE5DA49B341A55AD933230F58CB1E3_1DF6E22E8266CA60C02923AB0D534E6F_D5DB3745DEFD8E2F03FF6A726D6C5B51_8D1BAF92BBDDBC7F11D95C411F105AD8_0AC13188A5CD7BBD2D74D012B8E5B4B0_8969974A0C96777E65B9F109C56EC684_18F07DEC3ADC4D2079EE5F3ED7CB3948

  /** Sbox(i) = sbox[i]. */
  function Sbox(i: byte): byte
  {
    (SBOX_TABLE / Pow2(8 * (255 - i))) % 256
  }

  const FK: seq<word> := [0xA3B1BAC6, 0x56AA3350, 0x677D9197, 0xB27022DC]

  /** The constants CK[0..32) of the key schedule as one big-endian
      number: CK(i) is word i, counted from the most significant end. */
  const CK_TABLE: nat := 0x00070E15_1C232A31_383F464D_545B6269_70777E85_8C939AA1_A8AFB6BD_C4CBD2D9_E0E7EEF5_FC030A11_181F262D_343B4249_50575E65_6C737A81_888F969D_A4ABB2B9_C0C7CED5_DCE3EAF1_F8FF060D_141B2229_30373E45_4C535A61_686F767D_848B9299_A0A7AEB5_BCC3CAD1_D8DFE6ED_F4FB0209_10171E25_2C333A41_484F565D_646B7279

  function CK(i: nat): word
    requires i < 32
  {
    (CK_TABLE / Pow2(32 * (31 - i))) % WORD
  }

  /** tau: the S-box applied to each byte, reassembled big-endian. */
  function Tau(a: word): word
  {
    WordOf(Sbox(ByteOf(a, 0)), Sbox(ByteOf(a, 1)), Sbox(ByteOf(a, 2)), Sbox(ByteOf(a, 3)))
  }

  /** The encryption mixer L (C++ `t` after `tau`, Python `_l`). */
  function L(b: word): word
  {
    Xor32(Xor32(Xor32(Xor32(b, Rotl(b, 2)), Rotl(b, 10)), Rotl(b, 18)), Rotl(b, 24))
  }

  /** The key-schedule mixer L' (C++ `tPrime` after `tau`, Python `_l_prime`). */
  function LPrime(b: word): word
  {
    Xor32(Xor32(b, Rotl(b, 13)), Rotl(b, 23))
  }

  function T(z: word): word { L(Tau(z)) }

  function TPrime(z: word): word { LPrime(Tau(z)) }

  /** The round function F. */
  function F(x0: word, x1: word, x2: word, x3: word, rk: word): word
  {
    Xor32(x0, T(Xor32(Xor32(Xor32(x1, x2), x3), rk)))
  }


  // ---------------------------------------------------------------------
  // Key schedule

  /** The first four key words MK ^ FK. */
  function KeyInit(mk: seq<word>): (k: seq<word>)
    requires |mk| == 4
    ensures |k| == 4
  {
    seq(4, i requires 0 <= i < 4 => Xor32(mk[i], FK[i]))
  }

  /** The key word k[i + 4] = k[i] ^ tp(k[i + 1] ^ k[i + 2] ^ k[i + 3] ^ CK(i)),
      for a mixing function tp (T' in SM4). */
  function KeyStep(tp: word -> word, k: seq<word>, i: nat): word
    requires i < 32 && i + 3 < |k|
  {
    Xor32(k[i], tp(Xor32(Xor32(Xor32(k[i + 1], k[i + 2]), k[i + 3]), CK(i))))
  }

  lemma KeyStepOf(tp: word -> word, k: seq<word>, i: nat, a: word, b: word, c: word, d: word)
    requires i < 32 && i + 3 < |k|
    requires k[i] == a && k[i + 1] == b && k[i + 2] == c && k[i + 3] == d
    ensures KeyStep(tp, k, i) == Xor32(a, tp(Xor32(Xor32(Xor32(b, c), d), CK(i))))
  {
  }

  lemma KeyStepAppend(tp: word -> word, k: seq<word>, w: word, i: nat)
    requires i < 32 && i + 3 < |k|
    ensures KeyStep(tp, k + [w], i) == KeyStep(tp, k, i)
  {
    var r := k + [w];
    assert r[i] == k[i] && r[i + 1] == k[i + 1] && r[i + 2] == k[i + 2] && r[i + 3] == k[i + 3];
  }

  /** k[0 .. 4 + n): MK ^ FK followed by n words of the recurrence. */
  function KeyWords(tp: word -> word, mk: seq<word>, n: nat): (k: seq<word>)
    requires |mk| == 4 && n <= 32
    ensures |k| == 4 + n && k[..4] == KeyInit(mk)
    decreases n
  {
    if n == 0 then KeyInit(mk)
    else
      var k := KeyWords(tp, mk, n - 1);
      k + [KeyStep(tp, k, n - 1)]
  }

  /** Every word after the first four follows the recurrence. */
  lemma {:induction false} KeyWordsRecurrence(tp: word -> word, mk: seq<word>, n: nat)
    requires |mk| == 4 && n <= 32
    ensures forall i :: 0 <= i < n ==> KeyWords(tp, mk, n)[i + 4] == KeyStep(tp, KeyWords(tp, mk, n), i)
    decreases n
  {
    if n > 0 {
      var k := KeyWords(tp, mk, n - 1);
      var r := KeyWords(tp, mk, n);
      KeyWordsRecurrence(tp, mk, n - 1);
      forall i | 0 <= i < n ensures r[i + 4] == KeyStep(tp, r, i) {
        KeyStepAppend(tp, k, KeyStep(tp, k, n - 1), i);
        if i < n - 1 {
          assert r[i + 4] == k[i + 4];
        }
      }
    }
  }

  /** One more step of the recurrence appends KeyStep to the words so far. */
  lemma KeyWordsNext(tp: word -> word, mk: seq<word>, n: nat)
    requires |mk| == 4 && n < 32
    ensures KeyWords(tp, mk, n + 1) == KeyWords(tp, mk, n) + [KeyStep(tp, KeyWords(tp, mk, n), n)]
  {
  }

  /** The 32 round keys rk[i] = k[i + 4], MK read big-endian from the key. */
  function RoundKeys(key: Block): (rk: seq<word>)
    ensures |rk| == 32
  {
    KeyWords(TPrime, BeWords(key), 32)[4..]
  }

  // ---------------------------------------------------------------------
  // The Feistel network

  /** The four-word sliding window x[i], x[i + 1], x[i + 2], x[i + 3]. */
  datatype State = State(a: word, b: word, c: word, d: word)

  /** One round of the network for a mixing function t:
      x[i + 4] = x[i] ^ t(x[i + 1] ^ x[i + 2] ^ x[i + 3] ^ rk).
      With t = T this is x[i + 4] = F(x[i], x[i + 1], x[i + 2], x[i + 3], rk). */
  function Round(t: word -> word, rk: word, s: State): State
  {
    State(s.b, s.c, s.d, Xor32(s.a, t(Mix(s, rk))))
  }

  /** The input of the mixing function in a round: x[i + 1] ^ x[i + 2] ^ x[i + 3] ^ rk. */
  function Mix(s: State, rk: word): word { Xor32(Xor32(Xor32(s.b, s.c), s.d), rk) }

  /** With t = T a round computes x[i + 4] = F(x[i], x[i + 1], x[i + 2], x[i + 3], rk). */
  lemma RoundIsF(rk: word, x0: word, x1: word, x2: word, x3: word)
    ensures Round(T, rk, State(x0, x1, x2, x3)) == State(x1, x2, x3, F(x0, x1, x2, x3, rk))
  {
  }

  /** The window after the rounds keyed by rks, taken in order. */
  function Run(t: word -> word, s: State, rks: seq<word>): State
    decreases |rks|
  {
    if rks == [] then s else Round(t, rks[|rks| - 1], Run(t, s, rks[..|rks| - 1]))
  }

  /** One more round applied to the window after the first i rounds. */
  lemma RunNext(t: word -> word, s: State, rks: seq<word>, i: nat)
    requires i < |rks|
    ensures Run(t, s, rks[..i + 1]) == Round(t, rks[i], Run(t, s, rks[..i]))
  {
    assert rks[..i + 1][..i] == rks[..i];
  }

  function Swap(s: State): State { State(s.d, s.c, s.b, s.a) }

  function Reverse(s: seq<word>): (r: seq<word>)
    ensures |r| == |s|
  {
    seq(|s|, i requires 0 <= i < |s| => s[|s| - 1 - i])
  }

  lemma ReverseReverse(s: seq<word>)
    ensures Reverse(Reverse(s)) == s
  {
  }

  lemma {:induction false} RunFirst(t: word -> word, s: State, rks: seq<word>)
    requires rks != []
    ensures Run(t, s, rks) == Run(t, Round(t, rks[0], s), rks[1..])
    decreases |rks|
  {
    if |rks| > 1 {
      var pre := rks[..|rks| - 1];
      RunFirst(t, s, pre);
      assert pre[1..] == rks[1..][..|rks[1..]| - 1];
    } else {
      assert rks[..0] == [];
    }
  }

  /** A round applied to the swapped output of the same round undoes it. */
  lemma RoundSwap(t: word -> word, rk: word, u: State)
    ensures Round(t, rk, Swap(Round(t, rk, u))) == Swap(u)
  {
    Xor32Reversed(u.b, u.c, u.d);
    assert Mix(Swap(Round(t, rk, u)), rk) == Mix(u, rk);
    Xor32Twice(u.a, t(Mix(u, rk)));
  }

  /** Running the rounds again from the swapped output with the keys in
      reverse order undoes them, for any mixing function, any number of
      rounds and any keys. */
  lemma {:induction false} RunReversed(t: word -> word, s: State, rks: seq<word>)
    ensures Run(t, Swap(Run(t, s, rks)), Reverse(rks)) == Swap(s)
    decreases |rks|
  {
    if rks != [] {
      var n := |rks|;
      var pre, k := rks[..n - 1], rks[n - 1];
      var u := Run(t, s, pre);
      assert Reverse(rks)[0] == k;
      assert Reverse(rks)[1..] == Reverse(pre);
      RunFirst(t, Swap(Run(t, s, rks)), Reverse(rks));
      RoundSwap(t, k, u);
      RunReversed(t, s, pre);
    }
  }

  /** The window x[0..4) loaded big-endian from a block. */
  function Load(block: Block): State
  {
    var w := BeWords(block);
    State(w[0], w[1], w[2], w[3])
  }

  /** The output x[35], x[34], x[33], x[32] of the final window x[32..36), big-endian. */
  function Store(s: State): Block
  {
    BeBytes([s.d, s.c, s.b, s.a])
  }

  lemma LoadStore(s: State)
    ensures Load(Store(s)) == Swap(s)
  {
    BeWordsOfBytes([s.d, s.c, s.b, s.a]);
  }

  lemma StoreLoad(block: Block)
    ensures Store(Swap(Load(block))) == block
  {
    var w := BeWords(block);
    assert [w[0], w[1], w[2], w[3]] == w;
    BeBytesOfWords(block);
  }

  /** The block transformation: rounds in key order between Load and Store. */
  function Crypt(rks: seq<word>, block: Block): Block
  {
    Store(Run(T, Load(block), rks))
  }

  function EncryptBlock(key: Block, block: Block): Block
  {
    Crypt(RoundKeys(key), block)
  }

  /** Decryption is the same network with the round keys reversed. */
  function DecryptBlock(key: Block, block: Block): Block
  {
    Crypt(Reverse(RoundKeys(key)), block)
  }

  lemma CryptReversed(rks: seq<word>, block: Block)
    ensures Crypt(Reverse(rks), Crypt(rks, block)) == block
  {
    var s := Run(T, Load(block), rks);
    LoadStore(s);
    RunReversed(T, Load(block), rks);
    StoreLoad(block);
  }

  /** decrypt(encrypt(b, key), key) == b and encrypt(decrypt(b, key), key) == b. */
  lemma {:induction false} RoundTrip(key: Block, block: Block)
    ensures DecryptBlock(key, EncryptBlock(key, block)) == block
    ensures EncryptBlock(key, DecryptBlock(key, block)) == block
  {
    var rk := RoundKeys(key);
    CryptReversed(rk, block);
    CryptReversed(Reverse(rk), block);
    ReverseReverse(rk);
  }

  // ---------------------------------------------------------------------
  // Runs of blocks

  /** Every 16-byte block of data transformed on its own by f. */
  function MapBlocks(f: Block -> Block, data: seq<byte>): (r: seq<byte>)
    requires |data| % 16 == 0
    ensures |r| == |data|
    decreases |data|
  {
    if data == [] then []
    else
      var n := |data| - 16;
      MapBlocks(f, data[..n]) + f(data[n..])
  }

  /** Block i of the result is f applied to block i of the data. */
  lemma {:induction false} MapBlocksAt(f: Block -> Block, data: seq<byte>, i: nat)
    requires |data| % 16 == 0 && 16 * i + 16 <= |data|
    ensures MapBlocks(f, data)[16 * i..16 * i + 16] == f(data[16 * i..16 * i + 16])
    decreases |data|
  {
    var n := |data| - 16;
    var front := MapBlocks(f, data[..n]);
    assert MapBlocks(f, data) == front + f(data[n..]);
    if 16 * i < n {
      MapBlocksAt(f, data[..n], i);
      assert data[..n][16 * i..16 * i + 16] == data[16 * i..16 * i + 16];
      assert (front + f(data[n..]))[16 * i..16 * i + 16] == front[16 * i..16 * i + 16];
    } else {
      assert 16 * i == n && data[n..n + 16] == data[n..];
      assert (front + f(data[n..]))[n..n + 16] == f(data[n..]);
    }
  }

  /** Block by block, a left inverse of f undoes MapBlocks(f, _). */
  lemma {:induction false} MapBlocksInverse(f: Block -> Block, g: Block -> Block, data: seq<byte>)
    requires |data| % 16 == 0
    requires forall b: Block :: g(f(b)) == b
    ensures MapBlocks(g, MapBlocks(f, data)) == data
    decreases |data|
  {
    if data != [] {
      var n := |data| - 16;
      var c := MapBlocks(f, data);
      assert c[..n] == MapBlocks(f, data[..n]);
      assert c[n..] == f(data[n..]);
      MapBlocksInverse(f, g, data[..n]);
      assert data == data[..n] + data[n..];
    }
  }

  /** The block transformations of one key as function values. */
  function Encryptor(key: Block): Block -> Block
  {
    b => EncryptBlock(key, b)
  }

  function Decryptor(key: Block): Block -> Block
  {
    b => DecryptBlock(key, b)
  }

  /** f is the block encryption under key. */
  ghost predicate IsEncryption(f: Block -> Block, key: Block)
  {
    forall b {:trigger EncryptBlock(key, b)} :: f(b) == EncryptBlock(key, b)
  }

  /** f is the block decryption under key. */
  ghost predicate IsDecryption(f: Block -> Block, key: Block)
  {
    forall b {:trigger DecryptBlock(key, b)} :: f(b) == DecryptBlock(key, b)
  }

  /** f is one of the two, as decrypt says. */
  ghost predicate IsCipher(f: Block -> Block, key: Block, decrypt: bool)
  {
    if decrypt then IsDecryption(f, key) else IsEncryption(f, key)
  }

  function EncryptBlocks(key: Block, data: seq<byte>): (r: seq<byte>)
    requires |data| % 16 == 0
  {
    MapBlocks(Encryptor(key), data)
  }

  function DecryptBlocks(key: Block, data: seq<byte>): (r: seq<byte>)
    requires |data| % 16 == 0
  {
    MapBlocks(Decryptor(key), data)
  }

  /** Decrypting an encrypted run of blocks, or the reverse, restores it. */
  lemma BlocksRoundTrip(key: Block, data: seq<byte>)
    requires |data| % 16 == 0
    ensures DecryptBlocks(key, EncryptBlocks(key, data)) == data
    ensures EncryptBlocks(key, DecryptBlocks(key, data)) == data
  {
    var e := Encryptor(key);
    var d := Decryptor(key);
    forall b: Block ensures d(e(b)) == b && e(d(b)) == b {
      RoundTrip(key, b);
    }
    MapBlocksInverse(e, d, data);
    MapBlocksInverse(d, e, data);
  }
}
