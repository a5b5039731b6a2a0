/** Multiplication of 128-bit blocks. Two versions live here: the product
    in GF(2^128) that GCM prescribes (section 6.3 of NIST SP 800-38D,
    Algorithm 1), on bit strings whose first bit is the leftmost bit of
    byte 0; and the byte loop of `SM4_GCM::gfmul` in
    Project-1/sm4_gcm_modopt.cpp as written, which shifts the other way
    and reduces into the other end of the block. */
module Gf128 {
  import opened Words

  // ---------------------------------------------------------------------
  // Bit strings

  /** The n low bits of b, most significant first. */
  function ByteBits(b: nat, n: nat): (r: seq<bool>)
    ensures |r| == n
  {
    if n == 0 then [] else ByteBits(b / 2, n - 1) + [b % 2 == 1]
  }

  /** The number a bit string spells, most significant bit first. */
  function BitsValue(s: seq<bool>): (r: nat)
    ensures r < Pow2(|s|)
  {
    if s == [] then 0 else 2 * BitsValue(s[..|s| - 1]) + (if s[|s| - 1] then 1 else 0)
  }

  lemma {:induction false} BitsValueOfBits(b: nat, n: nat)
    requires b < Pow2(n)
    ensures BitsValue(ByteBits(b, n)) == b
  {
    if n > 0 {
      var front := ByteBits(b / 2, n - 1);
      assert (front + [b % 2 == 1])[..n - 1] == front;
      BitsValueOfBits(b / 2, n - 1);
    }
  }

  /** The 128 bits of a block, the leftmost bit of byte 0 first. */
  function Bits(x: Block): (r: seq<bool>)
    ensures |r| == 128
  {
    seq(128, i requires 0 <= i < 128 => ByteBits(x[i / 8], 8)[i % 8])
  }

  /** The block whose bits are s. */
  function FromBits(s: seq<bool>): (r: Block)
    requires |s| == 128
  {
    assert Pow2(8) == 256 by {
      assert Pow2(4) == 16;
    }
    seq(16, k requires 0 <= k < 16 => BitsValue(s[8 * k..8 * k + 8]))
  }

  lemma FromBitsBits(x: Block)
    ensures FromBits(Bits(x)) == x
  {
    forall k | 0 <= k < 16
      ensures FromBits(Bits(x))[k] == x[k]
    {
      FromBitsBitsAt(x, k);
    }
  }

  lemma FromBitsBitsAt(x: Block, k: nat)
    requires k < 16
    ensures FromBits(Bits(x))[k] == x[k]
  {
    ByteOfBits(x, k);
    assert Pow2(8) == 256 by {
      assert Pow2(4) == 16;
    }
    BitsValueOfBits(x[k], 8);
  }

  /** Bits 8k .. 8k + 7 of x are the bits of byte k. */
  lemma ByteOfBits(x: Block, k: nat)
    requires k < 16
    ensures Bits(x)[8 * k..8 * k + 8] == ByteBits(x[k], 8)
  {
    forall j | 0 <= j < 8
      ensures Bits(x)[8 * k..8 * k + 8][j] == ByteBits(x[k], 8)[j]
    {
      BitsAt(x, k, j);
    }
  }

  /** Bit 8k + j of x is bit j of byte k. */
  lemma BitsAt(x: Block, k: nat, j: nat)
    requires k < 16 && j < 8
    ensures Bits(x)[8 * k + j] == ByteBits(x[k], 8)[j]
  {
    assert (8 * k + j) / 8 == k && (8 * k + j) % 8 == j;
  }

  function NoBits(): (r: seq<bool>)
    ensures |r| == 128 && forall i :: 0 <= i < 128 ==> !r[i]
  {
    seq(128, _ => false)
  }

  /** The bit string with only bit k set. */
  function OneHot(k: nat): (r: seq<bool>)
    ensures |r| == 128 && forall i :: 0 <= i < 128 ==> (r[i] <==> i == k)
  {
    seq(128, i => i == k)
  }

  function XorBits(a: seq<bool>, b: seq<bool>): (r: seq<bool>)
    requires |a| == |b|
    ensures |r| == |a| && forall i :: 0 <= i < |a| ==> r[i] == (a[i] != b[i])
  {
    seq(|a|, i requires 0 <= i < |a| => a[i] != b[i])
  }

  // ---------------------------------------------------------------------
  // The product of SP 800-38D, section 6.3

  /** R = 11100001 || 0^120. */
  function Reduction(): (r: seq<bool>)
    ensures |r| == 128
  {
    ByteBits(0xE1, 8) + seq(120, _ => false)
  }

  /** V >> 1: every bit moves one place towards the end of the string. */
  function ShiftRight(v: seq<bool>): (r: seq<bool>)
    requires |v| == 128
    ensures |r| == 128 && !r[0] && forall i :: 0 < i < 128 ==> r[i] == v[i - 1]
  {
    [false] + v[..127]
  }

  /** Z and V of Algorithm 1. */
  datatype Product = Product(z: seq<bool>, v: seq<bool>)

  /** Z and V after the first i steps of Algorithm 1: step i adds V to Z
      when bit i of x is set, then shifts V right and reduces by R when
      the bit shifted out was set. */
  function MulSteps(x: seq<bool>, y: seq<bool>, i: nat): (p: Product)
    requires |x| == 128 && |y| == 128 && i <= 128
    ensures |p.z| == 128 && |p.v| == 128
  {
    if i == 0 then Product(NoBits(), y)
    else
      var p := MulSteps(x, y, i - 1);
      Product(if x[i - 1] then XorBits(p.z, p.v) else p.z,
              if p.v[127] then XorBits(ShiftRight(p.v), Reduction()) else ShiftRight(p.v))
  }

  function MulBits(x: seq<bool>, y: seq<bool>): (r: seq<bool>)
    requires |x| == 128 && |y| == 128
    ensures |r| == 128
  {
    MulSteps(x, y, 128).z
  }

  /** X • Y on blocks. */
  function Mul(x: Block, y: Block): Block
  {
    FromBits(MulBits(Bits(x), Bits(y)))
  }

  /** The multiplicative identity: the block 0x80 00 .. 00. */
  const ONE: Block := [0x80] + Zeros(15)

  /** Once the remaining bits of x are zero, Z no longer changes. */
  lemma {:induction false} MulRestZero(x: seq<bool>, y: seq<bool>, i: nat, n: nat)
    requires |x| == 128 && |y| == 128 && i <= n <= 128
    requires forall m :: i <= m < 128 ==> !x[m]
    ensures MulSteps(x, y, n).z == MulSteps(x, y, i).z
    decreases n
  {
    if n > i {
      MulRestZero(x, y, i, n - 1);
    }
  }

  /** The first i bits of x, the rest cleared. */
  function PrefixBits(x: seq<bool>, i: nat): (r: seq<bool>)
    requires |x| == 128
    ensures |r| == 128
  {
    seq(128, m requires 0 <= m < 128 => m < i && x[m])
  }

  lemma PrefixBitsNext(x: seq<bool>, i: nat)
    requires |x| == 128 && i < 128
    ensures PrefixBits(x, i + 1) == if x[i] then XorBits(PrefixBits(x, i), OneHot(i)) else PrefixBits(x, i)
  {
  }

  lemma ShiftOneHot(k: nat)
    requires k < 127
    ensures ShiftRight(OneHot(k)) == OneHot(k + 1)
  {
  }

  /** With y = 1 the first i steps keep the first i bits of x in Z,
      and V is the one-hot string of bit i. */
  lemma {:induction false} MulOneSteps(x: seq<bool>, i: nat)
    requires |x| == 128 && i <= 128
    ensures MulSteps(x, OneHot(0), i).z == PrefixBits(x, i)
    ensures i < 128 ==> MulSteps(x, OneHot(0), i).v == OneHot(i)
  {
    if i == 0 {
      assert PrefixBits(x, 0) == NoBits();
    } else {
      MulOneSteps(x, i - 1);
      PrefixBitsNext(x, i - 1);
      if i < 128 {
        ShiftOneHot(i - 1);
      }
    }
  }

  lemma BitsOne()
    ensures Bits(ONE) == OneHot(0)
  {
    forall i | 0 <= i < 128
      ensures Bits(ONE)[i] == OneHot(0)[i]
    {
      BitsOneAt(i);
    }
  }

  lemma BitsOneAt(i: nat)
    requires i < 128
    ensures Bits(ONE)[i] == (i == 0)
  {
    var k, j := i / 8, i % 8;
    assert i == 8 * k + j;
    BitsAt(ONE, k, j);
    if k == 0 {
      ByteBitsTop();
      assert ONE[k] == 0x80 && j == i;
    } else {
      ByteBitsZero();
      assert ONE[k] == 0 && i != 0;
    }
  }

  lemma ByteBitsTop()
    ensures ByteBits(0x80, 8) == [true, false, false, false, false, false, false, false]
  {
  }

  lemma ByteBitsZero()
    ensures ByteBits(0, 8) == [false, false, false, false, false, false, false, false]
  {
  }

  lemma BitsZero()
    ensures Bits(Zeros(16)) == NoBits()
  {
    ByteBitsZero();
    forall i | 0 <= i < 128
      ensures Bits(Zeros(16))[i] == NoBits()[i]
    {
      var k, j := i / 8, i % 8;
      assert i == 8 * k + j;
      BitsAt(Zeros(16), k, j);
    }
  }

  /** X • 1 = X. */
  lemma MulOneRight(x: Block)
    ensures Mul(x, ONE) == x
  {
    BitsOne();
    MulOneSteps(Bits(x), 128);
    assert PrefixBits(Bits(x), 128) == Bits(x);
    FromBitsBits(x);
  }

  /** 1 • Y = Y. */
  lemma MulOneLeft(y: Block)
    ensures Mul(ONE, y) == y
  {
    BitsOne();
    var x := OneHot(0);
    MulRestZero(x, Bits(y), 1, 128);
    assert MulSteps(x, Bits(y), 1).z == Bits(y);
    FromBitsBits(y);
  }

  /** Z and V stay zero when y is zero. */
  lemma {:induction false} MulZeroSteps(x: seq<bool>, i: nat)
    requires |x| == 128 && i <= 128
    ensures MulSteps(x, NoBits(), i) == Product(NoBits(), NoBits())
  {
    if i > 0 {
      MulZeroSteps(x, i - 1);
      assert ShiftRight(NoBits()) == NoBits();
      assert XorBits(NoBits(), NoBits()) == NoBits();
    }
  }

  /** X • 0 = 0. */
  lemma MulZeroRight(x: Block)
    ensures Mul(x, Zeros(16)) == Zeros(16)
  {
    BitsZero();
    MulZeroSteps(Bits(x), 128);
    FromBitsBits(Zeros(16));
  }

  // ---------------------------------------------------------------------
  // `gfmul` as written (Project-1/sm4_gcm_modopt.cpp:273-306)

  /** `(uint8_t)(b << 1)`: 2 b with the bit shifted past bit 7 dropped. */
  function Shl1(b: byte): byte { if b < 128 then 2 * b else 2 * b - 256 }

  /** The loop's copy of x[i] after j shifts `byte <<= 1`; its top bit
      (`byte & 0x80`) is the bit the loop tests. */
  function ShiftedByte(b: byte, j: nat): byte
  {
    if j == 0 then b else Shl1(ShiftedByte(b, j - 1))
  }

  /** One shift of v as written: every byte moves one place left, takes the
      top bit of the next byte (`(v[k+1] & 0x80) >> 7`), the last byte takes
      the LOW bit of the old v[0], and 0xE1 is xored into v[15] when the old
      top bit of v[0] was set. */
  function ShiftAsWritten(v: Block): (r: Block)
  {
    seq(16, k requires 0 <= k < 16 => ShiftedAt(v, k))
  }

  /** Byte k of ShiftAsWritten(v). */
  function ShiftedAt(v: Block, k: nat): byte
    requires k < 16
  {
    if k < 15 then Shl1(v[k]) + v[k + 1] / 128
    else if v[0] >= 0x80 then Xor8(Shl1(v[15]) + v[0] % 2, 0xE1)
    else Shl1(v[15]) + v[0] % 2
  }

  datatype Registers = Registers(z: Block, v: Block)

  /** z and v after n passes of the inner loop body: pass 8i+j adds v to z
      when the top bit of x[i] shifted j times is set, then shifts v. */
  function AsWrittenSteps(x: Block, y: Block, n: nat): Registers
    requires n <= 128
  {
    if n == 0 then Registers(Zeros(16), y)
    else
      var s := AsWrittenSteps(x, y, n - 1);
      var bit := ShiftedByte(x[(n - 1) / 8], (n - 1) % 8) >= 0x80;
      Registers(if bit then XorBytes(s.z, s.v) else s.z, ShiftAsWritten(s.v))
  }

  /** What `gfmul(x, y, z)` leaves in z when z is a separate buffer. */
  function MulAsWritten(x: Block, y: Block): Block
  {
    AsWrittenSteps(x, y, 128).z
  }

  lemma {:induction false} ShiftedZero(j: nat)
    ensures ShiftedByte(0, j) == 0
  {
    if j > 0 {
      ShiftedZero(j - 1);
    }
  }

  /** Once no tested bit of x is set any more, z no longer changes. */
  lemma {:induction false} AsWrittenRestZero(x: Block, y: Block, i: nat, n: nat)
    requires i <= n <= 128
    requires forall m :: i <= m < 128 ==> ShiftedByte(x[m / 8], m % 8) < 0x80
    ensures AsWrittenSteps(x, y, n).z == AsWrittenSteps(x, y, i).z
    decreases n
  {
    if n > i {
      AsWrittenRestZero(x, y, i, n - 1);
    }
  }

  /** With a zero multiplier, z stays zero through every pass. */
  lemma AsWrittenZeroSteps(y: Block, n: nat)
    requires n <= 128
    ensures AsWrittenSteps(Zeros(16), y, n).z == Zeros(16)
  {
    forall m | 0 <= m < 128
      ensures ShiftedByte(Zeros(16)[m / 8], m % 8) < 0x80
    {
      ShiftedZero(m % 8);
    }
    AsWrittenRestZero(Zeros(16), y, 0, n);
  }

  /** A zero multiplier gives zero, whatever y is. */
  lemma MulAsWrittenZero(y: Block)
    ensures MulAsWritten(Zeros(16), y) == Zeros(16)
  {
    AsWrittenZeroSteps(y, 128);
  }

  /** The loop as written disagrees with the GCM product: for x = 0x40 00..00
      (the polynomial x) and y = 1 it yields 00..00 E1 instead of x. */
  lemma MulAsWrittenMirrored()
    ensures MulAsWritten([0x40] + Zeros(15), ONE) == Zeros(15) + [0xE1]
    ensures Mul([0x40] + Zeros(15), ONE) == [0x40] + Zeros(15)
    ensures MulAsWritten([0x40] + Zeros(15), ONE) != Mul([0x40] + Zeros(15), ONE)
  {
    var x: Block := [0x40] + Zeros(15);
    MulOneRight(x);
    FirstTwoPasses();
    LaterBitsClear();
    AsWrittenRestZero(x, ONE, 2, 128);
    assert (Zeros(15) + [0xE1])[0] != ([0x40] + Zeros(15))[0];
  }

  /** The first pass of the loop on x = 0x40 00..00 only shifts 1; the
      second adds the shifted value to z. */
  lemma FirstTwoPasses()
    ensures AsWrittenSteps([0x40] + Zeros(15), ONE, 2).z == Zeros(15) + [0xE1]
  {
    var x: Block := [0x40] + Zeros(15);
    var s1 := AsWrittenSteps(x, ONE, 1);
    assert AsWrittenSteps(x, ONE, 0) == Registers(Zeros(16), ONE);
    assert ShiftedByte(0x40, 0) == 0x40;
    ShiftOne();
    assert s1 == Registers(Zeros(16), Zeros(15) + [0xE1]);
    assert ShiftedByte(0x40, 1) == 0x80;
    XorBytesZeroLeft(Zeros(15) + [0xE1]);
  }

  /** Every bit of 0x40 00..00 the loop tests after the second is clear. */
  lemma LaterBitsClear()
    ensures forall m :: 2 <= m < 128 ==> ShiftedByte(([0x40] + Zeros(15))[m / 8], m % 8) < 0x80
  {
    var x: Block := [0x40] + Zeros(15);
    forall m | 2 <= m < 128
      ensures ShiftedByte(x[m / 8], m % 8) < 0x80
    {
      if m < 8 {
        assert ShiftedByte(0x40, 2) == 0;
        ShiftedFromZero(0x40, 2, m);
      } else {
        assert x[m / 8] == 0;
        ShiftedZero(m % 8);
      }
    }
  }

  /** Shifting 1 as written: the top bit of v[0] falls out and 0xE1 is
      xored into the last byte. */
  lemma ShiftOne()
    ensures ShiftAsWritten(ONE) == Zeros(15) + [0xE1]
  {
    assert Xor8(0, 0xE1) == 0xE1 by {
      Xor8IsXor(0, 0xE1);
      XorZero(0xE1);
      XorComm(0, 0xE1);
    }
    forall k | 0 <= k < 16
      ensures ShiftAsWritten(ONE)[k] == (Zeros(15) + [0xE1])[k]
    {
      assert ShiftAsWritten(ONE)[k] == ShiftedAt(ONE, k);
    }
  }

  lemma {:induction false} ShiftedFromZero(b: byte, i: nat, j: nat)
    requires i <= j && ShiftedByte(b, i) == 0
    ensures ShiftedByte(b, j) == 0
    decreases j
  {
    if j > i {
      ShiftedFromZero(b, i, j - 1);
    }
  }
}
