/** Fixed-width unsigned integers and byte strings shared by the SM4, SM3
    and GCM models. Bytes and 32-bit words are integers in range; the
    bitwise operators of C++ and Python are defined bit by bit, least
    significant bit first. Every multi-byte integer in these algorithms is
    big-endian. */
module Words {

  /** 2^n. */
  function Pow2(n: nat): (r: nat)
    ensures r >= 1
  {
    if n == 0 then 1 else 2 * Pow2(n - 1)
  }

  const WORD: nat := 0x1_0000_0000

  type byte = x: int | 0 <= x < 256
  type word = x: int | 0 <= x < 0x1_0000_0000

  /** A 16-byte block (SM4 block, GCM counter, GHASH value). */
  type Block = s: seq<byte> | |s| == 16 witness Zeros(16)

  function Zeros(n: nat): (r: seq<byte>)
    ensures |r| == n && forall i :: 0 <= i < n ==> r[i] == 0
  {
    seq(n, _ => 0)
  }

  lemma Pow2Word()
    ensures Pow2(8) == 256 && Pow2(32) == WORD
  {
    assert Pow2(4) == 16;
    assert Pow2(8) == 256;
    assert Pow2(16) == 65536 by {
      assert Pow2(12) == 4096;
    }
    assert Pow2(24) == 16777216 by {
      assert Pow2(20) == 1048576;
    }
    assert Pow2(28) == 268435456;
  }

  // ---------------------------------------------------------------------
  // Bitwise operators on naturals

  /** a ^ b. */
  function Xor(a: nat, b: nat): nat
    decreases a + b
  {
    if a == 0 && b == 0 then 0
    else 2 * Xor(a / 2, b / 2) + (if a % 2 == b % 2 then 0 else 1)
  }

  /** a & b. */
  function And(a: nat, b: nat): nat
    decreases a + b
  {
    if a == 0 || b == 0 then 0
    else 2 * And(a / 2, b / 2) + (if a % 2 == 1 && b % 2 == 1 then 1 else 0)
  }

  /** a | b. */
  function Or(a: nat, b: nat): nat
    decreases a + b
  {
    if a == 0 && b == 0 then 0
    else 2 * Or(a / 2, b / 2) + (if a % 2 == 1 || b % 2 == 1 then 1 else 0)
  }

  lemma {:induction false} XorBound(a: nat, b: nat, n: nat)
    requires a < Pow2(n) && b < Pow2(n)
    ensures Xor(a, b) < Pow2(n)
    decreases n
  {
    if n > 0 && !(a == 0 && b == 0) {
      XorBound(a / 2, b / 2, n - 1);
    }
  }

  lemma {:induction false} AndBound(a: nat, b: nat)
    ensures And(a, b) <= a
    decreases a + b
  {
    if a != 0 && b != 0 {
      AndBound(a / 2, b / 2);
    }
  }

  lemma {:induction false} OrBound(a: nat, b: nat, n: nat)
    requires a < Pow2(n) && b < Pow2(n)
    ensures Or(a, b) < Pow2(n)
    decreases n
  {
    if n > 0 && !(a == 0 && b == 0) {
      OrBound(a / 2, b / 2, n - 1);
    }
  }

  lemma {:induction false} XorComm(a: nat, b: nat)
    ensures Xor(a, b) == Xor(b, a)
    decreases a + b
  {
    if !(a == 0 && b == 0) {
      XorComm(a / 2, b / 2);
    }
  }

  /** The lowest bit of a ^ b and the bits above it. */
  lemma XorHalves(a: nat, b: nat)
    ensures Xor(a, b) / 2 == Xor(a / 2, b / 2)
    ensures Xor(a, b) % 2 == (if a % 2 == b % 2 then 0 else 1)
  {
  }

  lemma {:induction false} XorAssoc(a: nat, b: nat, c: nat)
    ensures Xor(Xor(a, b), c) == Xor(a, Xor(b, c))
    decreases a + b + c
  {
    if !(a == 0 && b == 0 && c == 0) {
      var l, r := Xor(Xor(a, b), c), Xor(a, Xor(b, c));
      XorHalves(a, b);
      XorHalves(b, c);
      XorHalves(Xor(a, b), c);
      XorHalves(a, Xor(b, c));
      XorAssoc(a / 2, b / 2, c / 2);
      assert l / 2 == r / 2 && l % 2 == r % 2;
    }
  }

  lemma {:induction false} XorSelf(a: nat)
    ensures Xor(a, a) == 0
    decreases a
  {
    if a != 0 {
      XorSelf(a / 2);
    }
  }

  lemma {:induction false} XorZero(a: nat)
    ensures Xor(a, 0) == a
    decreases a
  {
    if a != 0 {
      XorZero(a / 2);
    }
  }

  /** x ^ y ^ y == x. */
  lemma XorTwice(x: nat, y: nat)
    ensures Xor(Xor(x, y), y) == x
  {
    XorAssoc(x, y, y);
    XorSelf(y);
    XorZero(x);
  }

  // ---------------------------------------------------------------------
  // Byte and word operators

  // ---------------------------------------------------------------------
  // Single bits

  /** Bit i of a, bit 0 being the least significant. */
  predicate Bit(a: nat, i: nat)
  {
    if i == 0 then a % 2 == 1 else Bit(a / 2, i - 1)
  }

  lemma {:induction false} ZeroBit(i: nat)
    ensures !Bit(0, i)
  {
    if i > 0 {
      ZeroBit(i - 1);
    }
  }

  /** Bit i of a ^ b is set when exactly one of the bits i of a and b is. */
  lemma {:induction false} XorBit(a: nat, b: nat, i: nat)
    ensures Bit(Xor(a, b), i) == (Bit(a, i) != Bit(b, i))
    decreases i
  {
    if a == 0 && b == 0 {
      ZeroBit(i);
    } else if i > 0 {
      XorBit(a / 2, b / 2, i - 1);
    }
  }

  /** Bit i of a & b is set when both bits i are. */
  lemma {:induction false} AndBit(a: nat, b: nat, i: nat)
    ensures Bit(And(a, b), i) == (Bit(a, i) && Bit(b, i))
    decreases i
  {
    if a == 0 || b == 0 {
      ZeroBit(i);
    } else if i > 0 {
      AndBit(a / 2, b / 2, i - 1);
    }
  }

  /** Bit i of a | b is set when either bit i is. */
  lemma {:induction false} OrBit(a: nat, b: nat, i: nat)
    ensures Bit(Or(a, b), i) == (Bit(a, i) || Bit(b, i))
    decreases i
  {
    if a == 0 && b == 0 {
      ZeroBit(i);
    } else if i > 0 {
      OrBit(a / 2, b / 2, i - 1);
    }
  }

  /** Below bit n, 2^n - 1 - a has exactly the bits a lacks. */
  lemma {:induction false} ComplementBit(n: nat, a: nat, i: nat)
    requires a < Pow2(n) && i < n
    ensures Bit(Pow2(n) - 1 - a, i) == !Bit(a, i)
    decreases i
  {
    var m := Pow2(n - 1);
    var c := Pow2(n) - 1 - a;
    assert a == 2 * (a / 2) + a % 2;
    assert c == 2 * (m - 1 - a / 2) + (1 - a % 2);
    assert c / 2 == m - 1 - a / 2 && c % 2 == 1 - a % 2;
    if i > 0 {
      ComplementBit(n - 1, a / 2, i - 1);
    }
  }

  // The reductions modulo 256 and 2^32 below never change the value (see
  // XorBound and the lemmas after it); they only state the result type
  // without a proof inside the function body.

  function Xor8(a: byte, b: byte): byte
  {
    Xor(a, b) % 256
  }

  function Xor32(a: word, b: word): word
  {
    Xor(a, b) % WORD
  }

  function And32(a: word, b: word): word
  {
    And(a, b) % WORD
  }

  function Or32(a: word, b: word): word
  {
    Or(a, b) % WORD
  }

  lemma Xor8IsXor(a: byte, b: byte)
    ensures Xor8(a, b) == Xor(a, b)
  {
    assert Pow2(8) == 256 by {
      assert Pow2(4) == 16;
    }
    XorBound(a, b, 8);
  }

  lemma Xor8Twice(x: byte, y: byte)
    ensures Xor8(Xor8(x, y), y) == x
  {
    Xor8IsXor(x, y);
    Xor8IsXor(Xor8(x, y), y);
    XorTwice(x, y);
  }

  lemma Xor32IsXor(a: word, b: word)
    ensures Xor32(a, b) == Xor(a, b)
  {
    Pow2Word();
    XorBound(a, b, 32);
  }

  lemma And32IsAnd(a: word, b: word)
    ensures And32(a, b) == And(a, b)
  {
    AndBound(a, b);
  }

  lemma Or32IsOr(a: word, b: word)
    ensures Or32(a, b) == Or(a, b)
  {
    Pow2Word();
    OrBound(a, b, 32);
  }

  /** x ^ y ^ y == x on words. */
  lemma Xor32Twice(x: word, y: word)
    ensures Xor32(Xor32(x, y), y) == x
  {
    Xor32IsXor(x, y);
    Xor32IsXor(Xor(x, y), y);
    XorTwice(x, y);
  }

  /** d ^ c ^ b == b ^ c ^ d on words. */
  lemma Xor32Reversed(b: word, c: word, d: word)
    ensures Xor32(Xor32(d, c), b) == Xor32(Xor32(b, c), d)
  {
    Xor32IsXor(d, c);
    Xor32IsXor(b, c);
    Xor32IsXor(Xor(d, c), b);
    Xor32IsXor(Xor(b, c), d);
    XorComm(Xor(d, c), b);
    XorComm(d, c);
    XorAssoc(b, c, d);
  }

  /** ~a on a 32-bit word. */
  function Not32(a: word): word
  {
    WORD - 1 - a
  }

  /** ~ flips each of the 32 bits. */
  lemma Not32Bit(a: word, i: nat)
    requires i < 32
    ensures Bit(Not32(a), i) == !Bit(a, i)
  {
    Pow2Word();
    ComplementBit(32, a, i);
  }

  /** a + b on uint32_t: the sum modulo 2^32. */
  function Add32(a: word, b: word): word
  {
    (a + b) % WORD
  }

  /** x << n on a 32-bit word: n doublings, each dropping the bit pushed
      past bit 31. */
  function Shl32(x: word, n: nat): word
  {
    if n == 0 then x else (2 * Shl32(x, n - 1)) % WORD
  }

  /** x >> n on an unsigned word: n halvings, each dropping bit 0. */
  function Shr32(x: word, n: nat): word
  {
    if n == 0 then x else Shr32(x, n - 1) / 2
  }

  /** Subtracting 2^k leaves the bits below k of a number at least 2^k. */
  lemma {:induction false} HighBitDrop(a: nat, k: nat, i: nat)
    requires Pow2(k) <= a && i < k
    ensures Bit(a - Pow2(k), i) == Bit(a, i)
    decreases i
  {
    if i > 0 {
      assert (a - Pow2(k)) / 2 == a / 2 - Pow2(k - 1);
      HighBitDrop(a / 2, k - 1, i - 1);
    }
  }

  /** A number below 2^k has no bit at k or above. */
  lemma {:induction false} HighBitsClear(a: nat, k: nat, i: nat)
    requires a < Pow2(k) && k <= i
    ensures !Bit(a, i)
    decreases k
  {
    if k == 0 {
      ZeroBit(i);
    } else {
      HighBitsClear(a / 2, k - 1, i - 1);
    }
  }

  /** A word has no bit at 32 or above. */
  lemma WordBitsClear(x: word, i: nat)
    requires 32 <= i
    ensures !Bit(x, i)
  {
    Pow2Word();
    HighBitsClear(x, 32, i);
  }

  /** Doubling a word modulo 2^32 moves each of its bits one place up. */
  lemma DoubleBit(y: word, i: nat)
    requires i < 32
    ensures Bit((2 * y) % WORD, i) == (i > 0 && Bit(y, i - 1))
  {
    if y >= WORD / 2 {
      assert (2 * y) % WORD == 2 * y - WORD;
      assert Pow2(32) == WORD by {
        Pow2Word();
      }
      HighBitDrop(2 * y, 32, i);
    }
  }

  /** Bit i of x << n is bit i - n of x, and clear below n. */
  lemma {:induction false} Shl32Bit(x: word, n: nat, i: nat)
    requires i < 32
    ensures Bit(Shl32(x, n), i) == (n <= i && Bit(x, i - n))
    decreases n
  {
    if n > 0 {
      DoubleBit(Shl32(x, n - 1), i);
      if i > 0 {
        Shl32Bit(x, n - 1, i - 1);
      }
    }
  }

  /** Bit i of x >> n is bit i + n of x. */
  lemma {:induction false} Shr32Bit(x: word, n: nat, i: nat)
    ensures Bit(Shr32(x, n), i) == Bit(x, i + n)
    decreases n
  {
    if n > 0 {
      Shr32Bit(x, n - 1, i + 1);
    }
  }

  /** Left rotation of a 32-bit word, written as the C++ does it:
      `(x << n) | (x >> (32 - n))` (and Python's
      `((x << n) & 0xFFFFFFFF) | (x >> (32 - n))` on a 32-bit x). For n = 0
      or n >= 32 one of the two shifts is by 32 or more, which C++ leaves
      undefined, hence the precondition. */
  function Rotl(x: word, n: nat): word
    requires 0 < n < 32
  {
    Or32(Shl32(x, n), Shr32(x, 32 - n))
  }

  /** Rotating left by n moves bit j of x to bit (j + n) mod 32. */
  lemma RotlBit(x: word, n: nat, i: nat)
    requires 0 < n < 32 && i < 32
    ensures Bit(Rotl(x, n), i) == Bit(x, (i + 32 - n) % 32)
  {
    Or32IsOr(Shl32(x, n), Shr32(x, 32 - n));
    OrBit(Shl32(x, n), Shr32(x, 32 - n), i);
    Shl32Bit(x, n, i);
    Shr32Bit(x, 32 - n, i);
    if n <= i {
      WordBitsClear(x, i + 32 - n);
      assert (i + 32 - n) % 32 == i - n;
    } else {
      assert (i + 32 - n) % 32 == i + 32 - n;
    }
  }

  // ---------------------------------------------------------------------
  // Big-endian packing

  /** Dividing q * 256 + r by 256 gives quotient q and remainder r. */
  lemma DivMod256(q: nat, r: nat)
    requires r < 256
    ensures (q * 256 + r) / 256 == q && (q * 256 + r) % 256 == r
  {
  }

  /** Byte `j` (0 = most significant) of a word. */
  function ByteOf(w: word, j: nat): byte
    requires j < 4
  {
    if j == 0 then w / 256 / 256 / 256
    else if j == 1 then w / 256 / 256 % 256
    else if j == 2 then w / 256 % 256
    else w % 256
  }

  /** The word whose big-endian bytes are b0 b1 b2 b3. */
  function WordOf(b0: byte, b1: byte, b2: byte, b3: byte): word
  {
    ((b0 * 256 + b1) * 256 + b2) * 256 + b3
  }

  /** The bytes of WordOf(b0, b1, b2, b3) are b0, b1, b2 and b3. */
  lemma ByteOfWordOf(b0: byte, b1: byte, b2: byte, b3: byte)
    ensures ByteOf(WordOf(b0, b1, b2, b3), 0) == b0 && ByteOf(WordOf(b0, b1, b2, b3), 1) == b1
    ensures ByteOf(WordOf(b0, b1, b2, b3), 2) == b2 && ByteOf(WordOf(b0, b1, b2, b3), 3) == b3
  {
    var h := b0 * 256 + b1;
    var m := h * 256 + b2;
    DivMod256(b0, b1);
    DivMod256(h, b2);
    DivMod256(m, b3);
  }

  /** A word is reassembled from its bytes. */
  lemma WordOfBytes(w: word)
    ensures WordOf(ByteOf(w, 0), ByteOf(w, 1), ByteOf(w, 2), ByteOf(w, 3)) == w
  {
    var q1 := w / 256;
    var q2 := q1 / 256;
    assert w == q1 * 256 + w % 256;
    assert q1 == q2 * 256 + q1 % 256;
    assert q2 == (q2 / 256) * 256 + q2 % 256;
  }

  /** The four big-endian bytes of a word. */
  function Bytes4(w: word): (r: seq<byte>)
    ensures |r| == 4
  {
    [ByteOf(w, 0), ByteOf(w, 1), ByteOf(w, 2), ByteOf(w, 3)]
  }

  /** Reading a byte string as big-endian words (`struct.unpack('>nI')`). */
  function BeWords(s: seq<byte>): (ws: seq<word>)
    requires |s| % 4 == 0
    ensures |ws| == |s| / 4
    decreases |s|
  {
    if s == [] then [] else [WordOf(s[0], s[1], s[2], s[3])] + BeWords(s[4..])
  }

  /** Word i is read from bytes 4 i .. 4 i + 3. */
  lemma {:induction false} BeWordsAt(s: seq<byte>, i: nat)
    requires |s| % 4 == 0 && i < |s| / 4
    ensures BeWords(s)[i] == WordOf(s[4 * i], s[4 * i + 1], s[4 * i + 2], s[4 * i + 3])
    decreases |s|
  {
    if i > 0 {
      var t := s[4..];
      BeWordsAt(t, i - 1);
      assert t[4 * (i - 1)] == s[4 * i] && t[4 * (i - 1) + 1] == s[4 * i + 1];
      assert t[4 * (i - 1) + 2] == s[4 * i + 2] && t[4 * (i - 1) + 3] == s[4 * i + 3];
    }
  }

  /** Writing words as big-endian bytes (`struct.pack('>nI')`). */
  function BeBytes(ws: seq<word>): (s: seq<byte>)
    ensures |s| == 4 * |ws|
  {
    if ws == [] then [] else Bytes4(ws[0]) + BeBytes(ws[1..])
  }

  /** Bytes 4 i .. 4 i + 3 are the bytes of word i. */
  lemma {:induction false} BeBytesAt(ws: seq<word>, i: nat)
    requires i < |ws|
    ensures BeBytes(ws)[4 * i] == ByteOf(ws[i], 0) && BeBytes(ws)[4 * i + 1] == ByteOf(ws[i], 1)
    ensures BeBytes(ws)[4 * i + 2] == ByteOf(ws[i], 2) && BeBytes(ws)[4 * i + 3] == ByteOf(ws[i], 3)
  {
    if i > 0 {
      BeBytesAt(ws[1..], i - 1);
    }
  }

  /** Packing words and unpacking them again gives the same words. */
  lemma {:induction false} BeWordsOfBytes(ws: seq<word>)
    ensures BeWords(BeBytes(ws)) == ws
  {
    if ws != [] {
      var s := BeBytes(ws);
      assert s[4..] == BeBytes(ws[1..]);
      BeWordsOfBytes(ws[1..]);
      WordOfBytes(ws[0]);
    }
  }

  /** Unpacking a byte string and packing it again gives the same bytes. */
  lemma {:induction false} BeBytesOfWords(s: seq<byte>)
    requires |s| % 4 == 0
    ensures BeBytes(BeWords(s)) == s
    decreases |s|
  {
    if s != [] {
      var ws := BeWords(s);
      assert ws[1..] == BeWords(s[4..]);
      BeBytesOfWords(s[4..]);
      ByteOfWordOf(s[0], s[1], s[2], s[3]);
      assert Bytes4(ws[0]) == s[..4];
      assert s == s[..4] + s[4..];
    }
  }

  // ---------------------------------------------------------------------
  // Byte strings

  /** Byte-wise exclusive or of two strings of equal length. */
  function XorBytes(a: seq<byte>, b: seq<byte>): (r: seq<byte>)
    requires |a| == |b|
    ensures |r| == |a| && forall i :: 0 <= i < |a| ==> r[i] == Xor8(a[i], b[i])
  {
    seq(|a|, i requires 0 <= i < |a| => Xor8(a[i], b[i]))
  }

  lemma XorBytesCancel(a: seq<byte>, b: seq<byte>)
    requires |a| == |b|
    ensures XorBytes(XorBytes(a, b), b) == a
  {
    forall i | 0 <= i < |a| ensures Xor8(Xor8(a[i], b[i]), b[i]) == a[i] {
      Xor8Twice(a[i], b[i]);
    }
  }

  lemma XorBytesZeroLeft(a: seq<byte>)
    ensures XorBytes(Zeros(|a|), a) == a
  {
    forall i | 0 <= i < |a| ensures Xor8(0, a[i]) == a[i] {
      Xor8IsXor(0, a[i]);
      XorZero(a[i]);
      XorComm(0, a[i]);
    }
  }

  function Min(x: int, y: int): int { if x <= y then x else y }

  /** Python's `bytes(a ^ b for a, b in zip(x, y))`: zip stops at the
      shorter operand, so the result is as long as the shorter one. */
  function ZipXor(a: seq<byte>, b: seq<byte>): (r: seq<byte>)
    ensures |r| == Min(|a|, |b|)
    ensures forall i :: 0 <= i < |r| ==> r[i] == Xor8(a[i], b[i])
  {
    seq(Min(|a|, |b|), i requires 0 <= i < Min(|a|, |b|) => Xor8(a[i], b[i]))
  }

  /** Xoring twice with the same (long enough) key gives the data back. */
  lemma ZipXorCancel(a: seq<byte>, k: seq<byte>)
    requires |a| <= |k|
    ensures ZipXor(ZipXor(a, k), k) == a
  {
    forall i | 0 <= i < |a| ensures Xor8(Xor8(a[i], k[i]), k[i]) == a[i] {
      Xor8Twice(a[i], k[i]);
    }
  }
}
