/** The SM3 class of Project-4/sm3_optimization.cpp. Its helpers, `pad`,
    the three expansion loops, the V update and the output loop are those
    of Project-4/sm3.cpp and are modelled once, in module Sm3; what differs
    is the round loop, unrolled into eight rounds per pass of an outer loop
    `for (j = 0; j < 64; j += 8)`. The table T has the same 60 entries. */
module Sm3Unrolled {
  import opened Words
  import opened Sm3

  /** The inner loop `for (k = 0; k < 8; ++k)`: rounds j .. j + 7. */
  method EightRounds(r0: Regs, j: nat, w: array<word>, w1: array<word>, t: nat -> word, ghost r: Regs)
    returns (s: Regs)
    requires j + 8 <= 64
    requires w.Length == 68
    requires w1.Length == 64
    requires w1[..] == Words64(w[..])
    requires r0 == Rounds(t, r, w[..], j)
    ensures s == Rounds(t, r, w[..], j + 8)
  {
    s := r0;
    ghost var n := j;
    for k := 0 to 8
      invariant n == j + k
      invariant s == Rounds(t, r, w[..], n)
    {
      assert w1[j + k] == w1[..][n] == Xor32(w[n], w[n + 4]);
      s := RoundStep(s, j + k, t(j + k), w[j + k], w1[j + k]);
      n := n + 1;
    }
  }

  /** A pass of eight rounds that starts before round 64 ends by it. */
  lemma NextPass(j: nat)
    requires j < 64 && j % 8 == 0
    ensures j + 8 <= 64 && (j + 8) % 8 == 0
  {
  }

  /** The unrolled round loop: 64 rounds, eight per pass. */
  method CompressRoundsUnrolled(v: array<word>, w: array<word>, w1: array<word>, t: nat -> word) returns (r: Regs)
    requires v.Length == 8 && w.Length == 68 && w1.Length == 64 && w1[..] == Words64(w[..])
    ensures r == Rounds(t, ToRegs(v[..]), w[..], 64)
  {
    ghost var r0 := ToRegs(v[..]);
    r := Regs(v[0], v[1], v[2], v[3], v[4], v[5], v[6], v[7]);
    var j := 0;
    while j < 64
      invariant j <= 64 && j % 8 == 0
      invariant r == Rounds(t, r0, w[..], j)
    {
      NextPass(j);
      r := EightRounds(r, j, w, w1, t, r0);
      j := j + 8;
    }
  }

  /** One pass of the block loop of the optimised `hash`. */
  method CompressBlock(v: array<word>, msg: array<byte>, off: nat, t: nat -> word, ghost before: Chain, ghost block: Block64)
    requires v.Length == 8 && off + 64 <= msg.Length
    requires v[..] == before && msg[off..off + 64] == block
    modifies v
    ensures v[..] == Compress(t, before, block)
  {
    var w := new word[68];
    var w1 := new word[64];
    ExpandMessage(msg, off, w, w1, ExpandWord);
    var r := CompressRoundsUnrolled(v, w, w1, t);
    UpdateV(v, r);
  }

  method CompressNext(v: array<word>, msg: array<byte>, i: nat, t: nat -> word, ghost cf: (Chain, Block64) -> Chain, ghost v0: Chain)
    requires v.Length == 8 && 64 * (i + 1) <= msg.Length && IsCompression(cf, t)
    requires v[..] == Iterate(cf, v0, msg[..], i)
    modifies v
    ensures v[..] == Iterate(cf, v0, msg[..], i + 1)
  {
    ghost var before: Chain := v[..];
    ghost var block: Block64 := msg[..][64 * i..64 * (i + 1)];
    CompressBlock(v, msg, i * 64, t, before, block);
    IterateStep(cf, t, v0, msg[..], i, before, block, v[..]);
  }

  /** The block loop `for (i = 0; i < blocks; ++i)`. */
  method CompressBlocks(v: array<word>, msg: array<byte>, t: nat -> word, ghost cf: (Chain, Block64) -> Chain)
    requires v.Length == 8 && msg.Length % 64 == 0 && IsCompression(cf, t)
    modifies v
    ensures v[..] == Iterate(cf, old(v[..]), msg[..], msg.Length / 64)
  {
    ghost var v0: Chain := v[..];
    var blocks := msg.Length / 64;
    for i := 0 to blocks
      invariant v[..] == Iterate(cf, v0, msg[..], i)
    {
      CompressNext(v, msg, i, t, cf, v0);
    }
  }

  /** The optimised `SM3::hash(data, len, digest)`: the same digest as the
      one of Project-4/sm3.cpp, table as written included. */
  method Hash(data: array<byte>, len: nat, digest: array<byte>)
    requires len <= data.Length && digest.Length == 32
    modifies digest
    ensures digest[..] == Digest(TAsWritten, old(data[..len]))
  {
    var v := LoadIV();
    var msg := Pad(data, len);
    PaddedLayout(data[..len]);
    CFIsCompression(TAsWritten);
    CompressBlocks(v, msg, TAsWritten, CF(TAsWritten));
    StoreDigest(v, digest);
  }
}
