/** SM3 (GB/T 32905-2016) as class `SM3` in Project-4/sm3.cpp computes
    it: the padding of section 5.2, the message expansion and compression
    of section 5.3, and `hash` with one method per loop of the code, each
    proved against the functions below. The compression function takes its
    table of round constants as a parameter, so that the 60-entry table of
    the code and the 64-entry table of section 4.2 share one definition. */
module Sm3 {
  import opened Words
  import Modes

  /** The chaining value V: eight words. */
  type Chain = s: seq<word> | |s| == 8 witness [0, 0, 0, 0, 0, 0, 0, 0]

  /** A 64-byte message block. */
  type Block64 = s: seq<byte> | |s| == 64 witness Zeros(64)

  /** `SM3::IV`, the initial value of section 4.1. */
  const IV: Chain := [0x7380166F, 0x4914B2B9, 0x172442D7, 0xDA8A0600,
                      0xA96F30BC, 0x163138AA, 0xE38DEE4D, 0xB0FB0E4E]

  /** 2^64: size_t arithmetic wraps modulo this. */
  const SIZE_T: nat := 0x1_0000_0000_0000_0000

  // ---------------------------------------------------------------------
  // Round constants

  /** T_j of section 4.2 (entries past 63 are never used). */
  function T(j: nat): word
  {
    if j < 16 then 0x79CC4519 else 0x7A879D8A
  }

  /** `SM3::T[j]` as initialised: 16 copies of 0x79CC4519 and only 44 of
      0x7A879D8A, so that entries 60 .. 63 of the 64-entry array are
      zero-filled. */
  function TAsWritten(j: nat): word
  {
    if j < 16 then 0x79CC4519 else if j < 60 then 0x7A879D8A else 0
  }

  /** The two tables agree on entries 0 .. 59 and differ on 60 .. 63. */
  lemma TableAsWrittenTail(j: nat)
    requires j < 64
    ensures j < 60 ==> TAsWritten(j) == T(j)
    ensures j >= 60 ==> TAsWritten(j) == 0 && T(j) == 0x7A879D8A
  {
  }

  /** x <<< (n mod 32). For 0 < n < 32 this is `leftRotate(x, n)`; for the
      other counts C++ leaves `leftRotate` undefined, and this is what a
      processor that reduces shift counts modulo 32 computes, and what
      section 5.3.3 asks of T_j <<< j. */
  function RotlMod(x: word, n: nat): word
  {
    if n % 32 == 0 then x else Rotl(x, n % 32)
  }

  /** RotlMod moves bit m of x to bit (m + n) mod 32. */
  lemma RotlModBit(x: word, n: nat, i: nat)
    requires i < 32
    ensures Bit(RotlMod(x, n), i) == Bit(x, (i + 32 - n % 32) % 32)
  {
    if n % 32 == 0 {
      assert (i + 32 - n % 32) % 32 == i;
    } else {
      RotlBit(x, n % 32, i);
    }
  }

  /** The constant of round j from table entry tj: tj <<< (j mod 32). */
  function RoundConstant(tj: word, j: nat): word
  {
    RotlMod(tj, j)
  }

  /** `leftRotate(T[j], j)` as written: defined only where 0 < j < 32, so
      that rounds 0 and 32 .. 63 call it with an undefined shift count. */
  function RoundConstantAsWritten(j: nat): word
    requires 0 < j < 32
  {
    Rotl(TAsWritten(j), j)
  }

  /** Where the call as written is defined, it is the rotation by j mod 32. */
  lemma RoundConstantAgrees(j: nat)
    requires 0 < j < 32
    ensures RoundConstantAsWritten(j) == RoundConstant(TAsWritten(j), j)
    ensures RoundConstantAsWritten(j) == RoundConstant(T(j), j)
  {
    assert j % 32 == j;
  }

  // ---------------------------------------------------------------------
  // Boolean and permutation functions

  /** `FF(x, y, z, j)`. */
  function FF(x: word, y: word, z: word, j: nat): word
  {
    if j < 16 then Xor32(Xor32(x, y), z) else Or32(Or32(And32(x, y), And32(x, z)), And32(y, z))
  }

  /** `GG(x, y, z, j)`. */
  function GG(x: word, y: word, z: word, j: nat): word
  {
    if j < 16 then Xor32(Xor32(x, y), z) else Or32(And32(x, y), And32(Not32(x), z))
  }

  /** `P0(x)`. */
  function P0(x: word): word
  {
    Xor32(Xor32(x, Rotl(x, 9)), Rotl(x, 17))
  }

  /** `P1(x)`. */
  function P1(x: word): word
  {
    Xor32(Xor32(x, Rotl(x, 15)), Rotl(x, 23))
  }

  /** Bit i of x ^ y ^ z on words. */
  lemma Xor3Bit(x: word, y: word, z: word, i: nat)
    ensures Bit(Xor32(Xor32(x, y), z), i) == ((Bit(x, i) != Bit(y, i)) != Bit(z, i))
  {
    Xor32IsXor(x, y);
    Xor32IsXor(Xor32(x, y), z);
    XorBit(x, y, i);
    XorBit(Xor32(x, y), z, i);
  }

  /** FF is bitwise parity in rounds 0 .. 15 and bitwise majority after. */
  lemma FFBit(x: word, y: word, z: word, j: nat, i: nat)
    ensures Bit(FF(x, y, z, j), i)
      == if j < 16 then (Bit(x, i) != Bit(y, i)) != Bit(z, i)
         else (Bit(x, i) && Bit(y, i)) || (Bit(x, i) && Bit(z, i)) || (Bit(y, i) && Bit(z, i))
  {
    if j < 16 {
      Xor3Bit(x, y, z, i);
    } else {
      And32IsAnd(x, y);
      And32IsAnd(x, z);
      And32IsAnd(y, z);
      Or32IsOr(And32(x, y), And32(x, z));
      Or32IsOr(Or32(And32(x, y), And32(x, z)), And32(y, z));
      AndBit(x, y, i);
      AndBit(x, z, i);
      AndBit(y, z, i);
      OrBit(And32(x, y), And32(x, z), i);
      OrBit(Or32(And32(x, y), And32(x, z)), And32(y, z), i);
    }
  }

  /** GG is bitwise parity in rounds 0 .. 15 and, after, the bitwise choice
      of y where x is set and z where it is clear. */
  lemma GGBit(x: word, y: word, z: word, j: nat, i: nat)
    requires i < 32
    ensures Bit(GG(x, y, z, j), i)
      == if j < 16 then (Bit(x, i) != Bit(y, i)) != Bit(z, i)
         else if Bit(x, i) then Bit(y, i) else Bit(z, i)
  {
    if j < 16 {
      Xor3Bit(x, y, z, i);
    } else {
      And32IsAnd(x, y);
      And32IsAnd(Not32(x), z);
      Or32IsOr(And32(x, y), And32(Not32(x), z));
      AndBit(x, y, i);
      AndBit(Not32(x), z, i);
      Not32Bit(x, i);
      OrBit(And32(x, y), And32(Not32(x), z), i);
    }
  }

  /** P0(X) = X ^ (X <<< 9) ^ (X <<< 17), bit by bit. */
  lemma P0Bit(x: word, i: nat)
    requires i < 32
    ensures Bit(P0(x), i) == ((Bit(x, i) != Bit(x, (i + 23) % 32)) != Bit(x, (i + 15) % 32))
  {
    Xor3Bit(x, Rotl(x, 9), Rotl(x, 17), i);
    RotlBit(x, 9, i);
    RotlBit(x, 17, i);
  }

  /** P1(X) = X ^ (X <<< 15) ^ (X <<< 23), bit by bit. */
  lemma P1Bit(x: word, i: nat)
    requires i < 32
    ensures Bit(P1(x), i) == ((Bit(x, i) != Bit(x, (i + 17) % 32)) != Bit(x, (i + 9) % 32))
  {
    Xor3Bit(x, Rotl(x, 15), Rotl(x, 23), i);
    RotlBit(x, 15, i);
    RotlBit(x, 23, i);
  }

  // ---------------------------------------------------------------------
  // Padding

  /** l = len * 8 in size_t. */
  function BitLength(len: nat): nat
  {
    (len * 8) % SIZE_T
  }

  /** The zero bytes between 0x80 and the length field: section 5.2's k
      zero bits, less the seven that share a byte with the 1 bit. */
  function ZeroFill(len: nat): nat
  {
    if len % 64 <= 55 then 55 - len % 64 else 119 - len % 64
  }

  /** The padded message of section 5.2: the message, the byte 0x80,
      zeros, and l as a 64-bit big-endian number. */
  function Padded(m: seq<byte>): seq<byte>
  {
    m + [0x80] + Zeros(ZeroFill(|m|)) + Modes.ToBytes(BitLength(|m|), 8)
  }

  /** The padded length is a whole number of 64-byte blocks. */
  lemma PaddedLength(len: nat)
    ensures len + 9 + ZeroFill(len) == 64 * (len / 64 + (if len % 64 <= 55 then 1 else 2))
    ensures (len + 9 + ZeroFill(len)) % 64 == 0
  {
    var q := len / 64 + (if len % 64 <= 55 then 1 else 2);
    assert len + 9 + ZeroFill(len) == 64 * q;
    assert (64 * q) % 64 == 0;
  }

  /** The layout `pad` produces: the input, 0x80, zeros, and the 64-bit
      big-endian bit length, in a multiple of 64 bytes between len + 9 and
      len + 72. */
  lemma PaddedLayout(m: seq<byte>)
    ensures |Padded(m)| % 64 == 0 && |m| + 9 <= |Padded(m)| <= |m| + 72
    ensures Padded(m)[..|m|] == m && Padded(m)[|m|] == 0x80
    ensures forall i :: |m| < i < |Padded(m)| - 8 ==> Padded(m)[i] == 0
    ensures Modes.FromBytes(Padded(m)[|Padded(m)| - 8..]) == BitLength(|m|)
  {
    var z := Zeros(ZeroFill(|m|));
    var lf := Modes.ToBytes(BitLength(|m|), 8);
    PaddedLength(|m|);
    Concat4(m, [0x80], z, lf);
    LengthFieldValue(|m|);
  }

  /** Where the four parts of a + b + c + d sit. */
  lemma Concat4(a: seq<byte>, b: seq<byte>, c: seq<byte>, d: seq<byte>)
    requires |b| == 1
    ensures (a + b + c + d)[..|a|] == a && (a + b + c + d)[|a|] == b[0]
    ensures forall i :: |a| < i < |a| + 1 + |c| ==> (a + b + c + d)[i] == c[i - |a| - 1]
    ensures (a + b + c + d)[|a| + 1 + |c|..] == d
  {
    var s := a + b + c + d;
    assert s[..|a|] == a;
    assert s[|a| + 1 + |c|..] == d;
  }

  /** The length field holds l: read big-endian it is BitLength(len). */
  lemma LengthFieldValue(len: nat)
    ensures Modes.FromBytes(Modes.ToBytes(BitLength(len), 8)) == BitLength(len)
  {
    assert Modes.Pow256(8) == SIZE_T;
    Modes.FitsBelow(BitLength(len), 8);
  }

  /** The padded length is the least multiple of 64 that holds the message,
      the 0x80 byte and the length field. */
  lemma PaddedShortest(m: seq<byte>, n: nat)
    requires n % 64 == 0 && |m| + 9 <= n
    ensures |Padded(m)| <= n
  {
    PaddedLength(|m|);
    var a, r, k := |m| / 64, |m| % 64, n / 64;
    assert n == 64 * k;
    assert |m| == 64 * a + r;
    if r <= 55 {
      assert a < k;
    } else {
      assert a + 1 < k;
    }
  }

  /** The length that `pad` computes from k = (448 - (l + 1) % 512 + 512)
      % 512 is that of Padded(m). In size_t the subtraction may wrap, but
      2^64 is a multiple of 512, so the result is the one in integers. */
  lemma PadLength(len: nat)
    ensures ((448 - (BitLength(len) + 1) % 512 + 512) % 512 + 1 + 64) / 8 == 9 + ZeroFill(len)
  {
    var l := BitLength(len);
    var q := (len * 8) / SIZE_T;
    var r := len % 64;
    assert len * 8 == q * SIZE_T + l;
    assert len == 64 * (len / 64) + r;
    assert l == 512 * (len / 64 - q * 0x80_0000_0000_0000) + 8 * r;
    assert (l + 1) % 512 == 8 * r + 1;
  }

  /** `pad(data, len)`. The vector is value-initialised, so the bytes
      between 0x80 and the length are zero. */
  method Pad(data: array<byte>, len: nat) returns (padded: array<byte>)
    requires len <= data.Length
    ensures fresh(padded) && padded[..] == Padded(data[..len])
  {
    var l, paddedLen := PadSizes(len);
    padded := new byte[paddedLen](_ => 0);
    CopyPrefix(data, padded, len);
    padded[len] := 0x80;
    ghost var head := padded[..paddedLen - 8];
    StoreLength(padded, l);
    assert padded[..] == head + padded[paddedLen - 8..];
    HeadLayout(head, data[..len]);
  }

  /** The size arithmetic at the head of `pad`: l, k and the padded
      length. */
  method PadSizes(len: nat) returns (l: nat, paddedLen: nat)
    ensures l == BitLength(len) && paddedLen == len + 9 + ZeroFill(len)
  {
    l := (len * 8) % SIZE_T;
    var k := (448 - (l + 1) % 512 + 512) % 512;
    PadLength(len);
    paddedLen := len + (k + 1 + 64) / 8;
  }

  /** The bytes before the length field, as CopyPrefix and the 0x80 store
      leave them. */
  lemma HeadLayout(head: seq<byte>, m: seq<byte>)
    requires |head| == |m| + 1 + ZeroFill(|m|) && head[|m|] == 0x80
    requires forall i :: 0 <= i < |m| ==> head[i] == m[i]
    requires forall i :: |m| < i < |head| ==> head[i] == 0
    ensures head == m + [0x80] + Zeros(ZeroFill(|m|))
  {
    assert head[..|m|] == m;
    var z := Zeros(ZeroFill(|m|));
    assert head[|m| + 1..] == z;
    assert head == head[..|m|] + [head[|m|]] + head[|m| + 1..];
  }

  /** `memcpy(padded.data(), data, len)` into a zero-filled vector. */
  method CopyPrefix(data: array<byte>, padded: array<byte>, len: nat)
    requires len <= data.Length && len < padded.Length && data != padded
    requires forall i :: 0 <= i < padded.Length ==> padded[i] == 0
    modifies padded
    ensures forall i :: 0 <= i < len ==> padded[i] == data[i]
    ensures forall i :: len <= i < padded.Length ==> padded[i] == 0
  {
    for i := 0 to len
      invariant forall m :: 0 <= m < i ==> padded[m] == data[m]
      invariant forall m :: i <= m < padded.Length ==> padded[m] == 0
    {
      padded[i] := data[i];
    }
  }

  /** The loop `padded[paddedLen - 1 - i] = (l >> (8 * i)) & 0xFF`. */
  method StoreLength(padded: array<byte>, l: nat)
    requires 8 <= padded.Length
    modifies padded
    ensures padded[..padded.Length - 8] == old(padded[..padded.Length - 8])
    ensures padded[padded.Length - 8..] == Modes.ToBytes(l, 8)
  {
    ghost var lb := Modes.ToBytes(l, 8);
    var n := padded.Length;
    for i := 0 to 8
      invariant padded[..n - 8] == old(padded[..n - 8])
      invariant forall m :: n - i <= m < n ==> padded[m] == lb[m - (n - 8)]
    {
      Modes.ToBytesAt(l, 8, 7 - i);
      padded[n - 1 - i] := Modes.ShrBytes(l, i) % 256;
    }
  }

  // ---------------------------------------------------------------------
  // Message expansion

  /** W_j from W_{j-16}, W_{j-13}, W_{j-9}, W_{j-6} and W_{j-3}. */
  function ExpandWord(w16: word, w13: word, w9: word, w6: word, w3: word): word
  {
    Xor32(Xor32(P1(Xor32(Xor32(w16, w9), Rotl(w3, 15))), Rotl(w13, 7)), w6)
  }

  /** A rule computing W_j from W_{j-16}, W_{j-13}, W_{j-9}, W_{j-6} and
      W_{j-3}. The expansion below is stated for any rule (and used with
      ExpandWord), which keeps the word operators out of the proofs about
      its shape. */
  type Rule = (word, word, word, word, word) -> word

  /** W_0 .. W_{n-1}, from the 16 words of the block. */
  function Expand(rule: Rule, b: seq<word>, n: nat): (w: seq<word>)
    requires |b| == 16 && 16 <= n <= 68
    ensures |w| == n
    decreases n
  {
    if n == 16 then b
    else
      var w := Expand(rule, b, n - 1);
      w + [rule(w[n - 17], w[n - 14], w[n - 10], w[n - 7], w[n - 4])]
  }

  lemma {:induction false} ExpandPrefix(rule: Rule, b: seq<word>, m: nat, n: nat)
    requires |b| == 16 && 16 <= m <= n <= 68
    ensures Expand(rule, b, n)[..m] == Expand(rule, b, m)
    decreases n
  {
    if n > m {
      ExpandPrefix(rule, b, m, n - 1);
      assert Expand(rule, b, n)[..n - 1] == Expand(rule, b, n - 1);
    }
  }

  /** Section 5.3.2 on the whole expanded message: W_0 .. W_15 are the
      block's words and every later W_j is the rule applied to W_{j-16},
      W_{j-13}, W_{j-9}, W_{j-6} and W_{j-3}. */
  lemma ExpandRecurrence(rule: Rule, b: seq<word>, j: nat)
    requires |b| == 16 && j < 68
    ensures var w := Expand(rule, b, 68);
      if j < 16 then w[j] == b[j]
      else w[j] == rule(w[j - 16], w[j - 13], w[j - 9], w[j - 6], w[j - 3])
  {
    var w := Expand(rule, b, 68);
    if j < 16 {
      ExpandPrefix(rule, b, 16, 68);
      assert w[j] == w[..16][j];
    } else {
      var e := Expand(rule, b, j + 1);
      ExpandPrefix(rule, b, j + 1, 68);
      assert w[j] == e[j];
      assert w[j - 16] == e[j - 16] && w[j - 13] == e[j - 13] && w[j - 9] == e[j - 9];
      assert w[j - 6] == e[j - 6] && w[j - 3] == e[j - 3];
    }
  }

  /** W_0 .. W_67 of a 64-byte block. */
  function Words68(block: seq<byte>): (w: seq<word>)
    requires |block| == 64
    ensures |w| == 68
  {
    Expand(ExpandWord, BeWords(block), 68)
  }

  /** W'_j = W_j ^ W_{j+4}. */
  function Words64(w: seq<word>): (w1: seq<word>)
    requires |w| == 68
    ensures |w1| == 64 && forall j :: 0 <= j < 64 ==> w1[j] == Xor32(w[j], w[j + 4])
  {
    seq(64, j requires 0 <= j < 64 => Xor32(w[j], w[j + 4]))
  }

  /** The three expansion loops of `hash` on the block at msg[off .. off + 64),
      the second one computing each W_j with rule (ExpandWord in `hash`). */
  method ExpandMessage(msg: array<byte>, off: nat, w: array<word>, w1: array<word>, rule: Rule)
    requires off + 64 <= msg.Length && w.Length == 68 && w1.Length == 64
    modifies w, w1
    ensures w[..] == Expand(rule, BeWords(msg[off..off + 64]), 68) && w1[..] == Words64(w[..])
  {
    LoadWords(msg, off, w, rule);
    ExpandWords(w, BeWords(msg[off..off + 64]), rule);
    PairWords(w, w1);
  }

  /** The second loop, j = 16 .. 67. */
  method ExpandWords(w: array<word>, ghost b: seq<word>, rule: Rule)
    requires w.Length == 68 && |b| == 16 && w[..16] == Expand(rule, b, 16)
    modifies w
    ensures w[..] == Expand(rule, b, 68)
  {
    for j := 16 to 68
      invariant w[..j] == Expand(rule, b, j)
    {
      ExpandAt(w, j, b, rule);
    }
    assert w[..] == w[..68];
  }

  /** The third loop: `W1[j] = W[j] ^ W[j + 4]`. */
  method PairWords(w: array<word>, w1: array<word>)
    requires w.Length == 68 && w1.Length == 64
    modifies w1
    ensures w1[..] == Words64(w[..])
  {
    for j := 0 to 64
      invariant forall m :: 0 <= m < j ==> w1[m] == Xor32(w[m], w[m + 4])
    {
      w1[j] := Xor32(w[j], w[j + 4]);
    }
  }

  /** One pass of the second loop: W_j from the five earlier words. */
  method ExpandAt(w: array<word>, j: nat, ghost b: seq<word>, rule: Rule)
    requires w.Length == 68 && |b| == 16 && 16 <= j < 68 && w[..j] == Expand(rule, b, j)
    modifies w
    ensures w[..j + 1] == Expand(rule, b, j + 1)
  {
    ghost var before := w[..j];
    w[j] := rule(w[j - 16], w[j - 13], w[j - 9], w[j - 6], w[j - 3]);
    assert w[..j + 1] == before + [w[j]];
  }

  /** The first loop: W_j = `(b[4j] << 24) | (b[4j+1] << 16) | (b[4j+2] << 8) | b[4j+3]`. */
  method LoadWords(msg: array<byte>, off: nat, w: array<word>, ghost rule: Rule)
    requires off + 64 <= msg.Length && w.Length == 68
    modifies w
    ensures w[..16] == BeWords(msg[off..off + 64])
    ensures w[..16] == Expand(rule, BeWords(msg[off..off + 64]), 16)
  {
    ghost var block := msg[off..off + 64];
    for j := 0 to 16
      invariant forall m :: 0 <= m < j ==> w[m] == BeWords(block)[m]
    {
      BeWordsAt(block, j);
      w[j] := WordOf(msg[off + j * 4], msg[off + j * 4 + 1], msg[off + j * 4 + 2], msg[off + j * 4 + 3]);
    }
  }

  // ---------------------------------------------------------------------
  // Compression

  /** The registers A .. H. */
  datatype Regs = Regs(a: word, b: word, c: word, d: word, e: word, f: word, g: word, h: word)

  /** Round j of the compression function with table entry tj, W_j and
      W'_j. Add32 wraps modulo 2^32 as uint32_t does, so the
      `& 0xFFFFFFFF` of the code has nothing left to clear. */
  function Round(r: Regs, j: nat, tj: word, wj: word, w1j: word): (s: Regs)
    ensures s.b == r.a && s.c == Rotl(r.b, 9) && s.d == r.c
    ensures s.f == r.e && s.g == Rotl(r.f, 19) && s.h == r.g
  {
    var ss1 := Rotl(Add32(Add32(Rotl(r.a, 12), r.e), RoundConstant(tj, j)), 7);
    var ss2 := Xor32(ss1, Rotl(r.a, 12));
    var tt1 := Add32(Add32(Add32(FF(r.a, r.b, r.c, j), r.d), ss2), w1j);
    var tt2 := Add32(Add32(Add32(GG(r.e, r.f, r.g, j), r.h), ss1), wj);
    Regs(tt1, r.a, Rotl(r.b, 9), r.c, P0(tt2), r.e, Rotl(r.f, 19), r.g)
  }

  /** The registers after rounds 0 .. n-1, with W'_j = W_j ^ W_{j+4}. */
  function Rounds(t: nat -> word, r: Regs, w: seq<word>, n: nat): Regs
    requires |w| == 68 && n <= 64
  {
    if n == 0 then r else Round(Rounds(t, r, w, n - 1), n - 1, t(n - 1), w[n - 1], Xor32(w[n - 1], w[n + 3]))
  }

  /** Two tables that agree on entries 0 .. n-1 give the same registers
      after n rounds. */
  lemma {:induction false} RoundsAgree(t: nat -> word, u: nat -> word, r: Regs, w: seq<word>, n: nat)
    requires |w| == 68 && n <= 64
    requires forall j :: 0 <= j < n ==> t(j) == u(j)
    ensures Rounds(t, r, w, n) == Rounds(u, r, w, n)
  {
    if n > 0 {
      RoundsAgree(t, u, r, w, n - 1);
    }
  }

  /** The short table of the code changes nothing in rounds 0 .. 59: the
      registers there are those of the standard table. */
  lemma RoundsAsWrittenBefore60(r: Regs, w: seq<word>, n: nat)
    requires |w| == 68 && n <= 60
    ensures Rounds(TAsWritten, r, w, n) == Rounds(T, r, w, n)
  {
    RoundsAgree(TAsWritten, T, r, w, n);
  }

  function ToRegs(v: seq<word>): Regs
    requires |v| == 8
  {
    Regs(v[0], v[1], v[2], v[3], v[4], v[5], v[6], v[7])
  }

  /** V ^ ABCDEFGH. */
  function XorRegs(v: seq<word>, r: Regs): (u: seq<word>)
    requires |v| == 8
    ensures |u| == 8
  {
    [Xor32(v[0], r.a), Xor32(v[1], r.b), Xor32(v[2], r.c), Xor32(v[3], r.d),
     Xor32(v[4], r.e), Xor32(v[5], r.f), Xor32(v[6], r.g), Xor32(v[7], r.h)]
  }

  /** CF(V, B) of section 5.3.3 with the table t. */
  function Compress(t: nat -> word, v: Chain, block: Block64): Chain
  {
    var w := Words68(block);
    XorRegs(v, Rounds(t, ToRegs(v), w, 64))
  }

  /** CF as a value, for Iterate. */
  function CF(t: nat -> word): (Chain, Block64) -> Chain
  {
    (v, block) => Compress(t, v, block)
  }

  /** V after the first n 64-byte blocks of msg, compressing with cf. */
  function Iterate(cf: (Chain, Block64) -> Chain, v: Chain, msg: seq<byte>, n: nat): Chain
    requires 64 * n <= |msg|
  {
    if n == 0 then v else cf(Iterate(cf, v, msg, n - 1), msg[64 * (n - 1)..64 * n])
  }

  /** One more block compresses the chaining value with CF. */
  lemma IterateNext(t: nat -> word, v: Chain, msg: seq<byte>, i: nat)
    requires 64 * (i + 1) <= |msg|
    ensures Iterate(CF(t), v, msg, i + 1) == Compress(t, Iterate(CF(t), v, msg, i), msg[i * 64..i * 64 + 64])
  {
  }

  lemma SliceOfSlice<X>(s: seq<X>, a: nat, b: nat, c: nat)
    requires b <= c && a + c <= |s|
    ensures s[a..][b..c] == s[a + b..a + c]
  {
  }

  /** The chaining value carries all that later blocks see of earlier ones:
      running n + k blocks is running k blocks from V after the first n. */
  lemma {:induction false} IterateSplit(cf: (Chain, Block64) -> Chain, v: Chain, msg: seq<byte>, n: nat, k: nat)
    requires 64 * (n + k) <= |msg|
    ensures Iterate(cf, v, msg, n + k) == Iterate(cf, Iterate(cf, v, msg, n), msg[64 * n..], k)
    decreases k
  {
    if k > 0 {
      IterateSplit(cf, v, msg, n, k - 1);
      SliceOfSlice(msg, 64 * n, 64 * (k - 1), 64 * k);
      assert msg[64 * (n + k - 1)..64 * (n + k)] == msg[64 * n..][64 * (k - 1)..64 * k];
    }
  }

  /** Iteration reads only the blocks it runs over. */
  lemma {:induction false} IteratePrefix(cf: (Chain, Block64) -> Chain, v: Chain, msg: seq<byte>, more: seq<byte>, n: nat)
    requires 64 * n <= |msg|
    ensures Iterate(cf, v, msg + more, n) == Iterate(cf, v, msg, n)
  {
    if n > 0 {
      IteratePrefix(cf, v, msg, more, n - 1);
      assert (msg + more)[64 * (n - 1)..64 * n] == msg[64 * (n - 1)..64 * n];
    }
  }

  /** The digest with the table t: V after every block of the padded
      message, from IV, written big-endian. Digest(T, m) is SM3(m). */
  function Digest(t: nat -> word, data: seq<byte>): (d: seq<byte>)
    ensures |d| == 32
  {
    var p := Padded(data);
    BeBytes(Iterate(CF(t), IV, p, |p| / 64))
  }

  /** The padded message is one block for messages of up to 55 bytes and
      one more for each further 64 bytes. */
  lemma DigestBlocks(data: seq<byte>)
    ensures |Padded(data)| / 64 == |data| / 64 + (if |data| % 64 <= 55 then 1 else 2)
  {
    PaddedLength(|data|);
  }

  // ---------------------------------------------------------------------
  // The methods of class SM3

  /** The round loop of `hash`: 64 rounds on the registers loaded from V,
      with T[j] read from the table t. */
  method CompressRounds(v: array<word>, w: array<word>, w1: array<word>, t: nat -> word) returns (r: Regs)
    requires v.Length == 8 && w.Length == 68 && w1.Length == 64 && w1[..] == Words64(w[..])
    ensures r == Rounds(t, ToRegs(v[..]), w[..], 64)
  {
    r := Regs(v[0], v[1], v[2], v[3], v[4], v[5], v[6], v[7]);
    for j := 0 to 64
      invariant r == Rounds(t, ToRegs(v[..]), w[..], j)
    {
      assert w1[j] == w1[..][j] == Xor32(w[j], w[j + 4]);
      r := RoundStep(r, j, t(j), w[j], w1[j]);
    }
  }

  /** The body of the round loop on A .. H. */
  method RoundStep(r: Regs, j: nat, tj: word, wj: word, w1j: word) returns (s: Regs)
    ensures s == Round(r, j, tj, wj, w1j)
  {
    var a, b, c, d, e, f, g, h := r.a, r.b, r.c, r.d, r.e, r.f, r.g, r.h;
    var ss1 := Rotl(Add32(Add32(Rotl(a, 12), e), RotlMod(tj, j)), 7);
    var ss2 := Xor32(ss1, Rotl(a, 12));
    var tt1 := Add32(Add32(Add32(FF(a, b, c, j), d), ss2), w1j);
    var tt2 := Add32(Add32(Add32(GG(e, f, g, j), h), ss1), wj);
    d := c;
    c := Rotl(b, 9);
    b := a;
    a := tt1;
    h := g;
    g := Rotl(f, 19);
    f := e;
    e := P0(tt2);
    s := Regs(a, b, c, d, e, f, g, h);
  }

  /** One pass of the block loop of `hash`: expansion, rounds, V ^= A .. H. */
  method CompressBlock(v: array<word>, msg: array<byte>, off: nat, t: nat -> word, ghost before: Chain, ghost block: Block64)
    requires v.Length == 8 && off + 64 <= msg.Length
    requires v[..] == before && msg[off..off + 64] == block
    modifies v
    ensures v[..] == Compress(t, before, block)
  {
    var w := new word[68];
    var w1 := new word[64];
    ExpandMessage(msg, off, w, w1, ExpandWord);
    var r := CompressRounds(v, w, w1, t);
    UpdateV(v, r);
  }

  /** `V[0] ^= A; ... V[7] ^= H;` */
  method UpdateV(v: array<word>, r: Regs)
    requires v.Length == 8
    modifies v
    ensures v[..] == XorRegs(old(v[..]), r)
  {
    v[0] := Xor32(v[0], r.a);
    v[1] := Xor32(v[1], r.b);
    v[2] := Xor32(v[2], r.c);
    v[3] := Xor32(v[3], r.d);
    v[4] := Xor32(v[4], r.e);
    v[5] := Xor32(v[5], r.f);
    v[6] := Xor32(v[6], r.g);
    v[7] := Xor32(v[7], r.h);
    assert v[..] == [v[0], v[1], v[2], v[3], v[4], v[5], v[6], v[7]];
  }

  /** `memcpy(V, IV, sizeof(V))` into a new array. */
  method LoadIV() returns (v: array<word>)
    ensures fresh(v) && v[..] == IV
  {
    v := new word[8];
    for i := 0 to 8
      invariant forall m :: 0 <= m < i ==> v[m] == IV[m]
    {
      v[i] := IV[i];
    }
  }

  /** The output loop: word i of V becomes digest bytes 4i .. 4i+3,
      most significant first. */
  method StoreDigest(v: array<word>, digest: array<byte>)
    requires v.Length == 8 && digest.Length == 32
    modifies digest
    ensures digest[..] == BeBytes(v[..])
  {
    for i := 0 to 8
      invariant forall m :: 0 <= m < 4 * i ==> digest[m] == BeBytes(v[..])[m]
    {
      BeBytesAt(v[..], i);
      digest[i * 4] := ByteOf(v[i], 0);
      digest[i * 4 + 1] := ByteOf(v[i], 1);
      digest[i * 4 + 2] := ByteOf(v[i], 2);
      digest[i * 4 + 3] := ByteOf(v[i], 3);
    }
  }

  /** cf is the compression function with the table t. The block loop
      below sees Compress only through this predicate. */
  ghost predicate IsCompression(cf: (Chain, Block64) -> Chain, t: nat -> word)
  {
    forall v, b {:trigger Compress(t, v, b)} :: cf(v, b) == Compress(t, v, b)
  }

  lemma CFIsCompression(t: nat -> word)
    ensures IsCompression(CF(t), t)
  {
  }

  /** A pass of the block loop that leaves Compress(t, before, block) in V
      takes Iterate one block further. */
  lemma IterateStep(cf: (Chain, Block64) -> Chain, t: nat -> word, v0: Chain, msg: seq<byte>, i: nat, before: Chain, block: Block64, after: Chain)
    requires IsCompression(cf, t) && 64 * (i + 1) <= |msg|
    requires before == Iterate(cf, v0, msg, i) && block == msg[64 * i..64 * (i + 1)]
    requires after == Compress(t, before, block)
    ensures after == Iterate(cf, v0, msg, i + 1)
  {
  }

  /** One pass of the block loop, as a step of Iterate. */
  method CompressNext(v: array<word>, msg: array<byte>, i: nat, t: nat -> word, ghost cf: (Chain, Block64) -> Chain, ghost v0: Chain)
    requires v.Length == 8 && 64 * (i + 1) <= msg.Length && IsCompression(cf, t)
    requires v[..] == Iterate(cf, v0, msg[..], i)
    modifies v
    ensures v[..] == Iterate(cf, v0, msg[..], i + 1)
  {
    ghost var before: Chain := v[..];
    ghost var block: Block64 := msg[..][64 * i..64 * (i + 1)];
    CompressBlock(v, msg, i * 64, t, before, block);
    IterateStep(cf, t, v0, msg[..], i, before, block, v[..]);
  }

  /** The block loop of `hash`: each 64-byte block of msg in turn
      compressed into V with the table t. */
  method CompressBlocks(v: array<word>, msg: array<byte>, t: nat -> word, ghost cf: (Chain, Block64) -> Chain)
    requires v.Length == 8 && msg.Length % 64 == 0 && IsCompression(cf, t)
    modifies v
    ensures v[..] == Iterate(cf, old(v[..]), msg[..], msg.Length / 64)
  {
    ghost var v0: Chain := v[..];
    var numBlocks := msg.Length / 64;
    for i := 0 to numBlocks
      invariant v[..] == Iterate(cf, v0, msg[..], i)
    {
      CompressNext(v, msg, i, t, cf, v0);
    }
  }

  /** `SM3::hash(data, len, digest)`: the digest with the table as written. */
  method Hash(data: array<byte>, len: nat, digest: array<byte>)
    requires len <= data.Length && digest.Length == 32
    modifies digest
    ensures digest[..] == Digest(TAsWritten, old(data[..len]))
  {
    var v := LoadIV();
    var msg := Pad(data, len);
    PaddedLayout(data[..len]);
    CFIsCompression(TAsWritten);
    CompressBlocks(v, msg, TAsWritten, CF(TAsWritten));
    StoreDigest(v, digest);
  }
}
