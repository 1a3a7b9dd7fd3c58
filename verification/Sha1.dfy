/** The SHA-1 context of mongoose, for any compression function in place of SHA1Transform. */
module Sha1 {
  import opened Wire
  import opened StreamingDigests

  ghost function Sha1Digest<R(!new)>(f: (R, seq<byte>) -> R, init: R, msg: seq<byte>): R {
    Compress(f, init, Padded(msg, Sha1LengthField(msg)))
  }

  /** The test `(j + len) > 63` is made in 32-bit arithmetic. */
  predicate BlockCompletes(j: nat, len: uint32) {
    (j + len) % WORD > 63
  }

  /** So it answers correctly exactly when position and length together stay below 2^32. */
  lemma BlockTestIsRightExactlyWhen(j: nat, len: uint32)
    requires j < 64
    ensures (BlockCompletes(j, len) <==> j + len >= 64) <==> j + len < WORD
  {
  }

  /** Where that test is right, the 32-bit guard `i + 63 < len` of the loop over blocks is right as well. */
  lemma GuardDoesNotWrap(j: nat, i: nat, len: nat)
    requires j < 64 && (i + j) % 64 == 0 && i <= len && j + len < WORD
    ensures (i + 63) % WORD == i + 63
  {
    var blocks := (i + j) / 64;
    assert i + j == 64 * blocks;
  }

  lemma NextBlock(i: nat, j: nat)
    requires (i + j) % 64 == 0
    ensures (i + 64 + j) % 64 == 0
  {
  }

  /** The digest by the standard: the compression of the one message that pads `msg` as prescribed. */
  ghost predicate IsSha1Digest<R(!new)>(f: (R, seq<byte>) -> R, init: R, msg: seq<byte>, digest: R) {
    exists r: seq<byte> :: IsSha1Padding(msg, r) && digest == Compress(f, init, r)
  }

  lemma DigestIsStandard<R(!new)>(f: (R, seq<byte>) -> R, init: R, msg: seq<byte>)
    ensures IsSha1Digest(f, init, msg, Sha1Digest(f, init, msg))
  {
    Sha1PaddingIsStandard(msg);
    hide Padded, IsSha1Padding, Compress;
  }

  class Sha1Context<R(!new)> {
    const transform: (R, seq<byte>) -> R
    const init: R
    var regs: R
    var count0: uint32
    var count1: uint32
    const buffer: array<byte>
    /** Everything that has been fed so far. */
    ghost var fed: seq<byte>

    ghost predicate Valid()
      reads this, buffer
    {
      && Counts(count0, count1, |fed|)
      && Absorbed(transform, init, regs, buffer[..], fed)
    }

    /** SHA1Init */
    constructor (transform: (R, seq<byte>) -> R, init: R)
      ensures Valid() && fed == [] && fresh(buffer)
      ensures this.transform == transform && this.init == init
    {
      this.transform, this.init, regs := transform, init, init;
      count0, count1 := 0, 0;
      buffer := new byte[64](_ => 0);
      fed := [];
    }

    /** SHA1Update, for input that the 32-bit block test can handle. */
    method Update(data: seq<byte>)
      requires Valid() && |fed| % 64 + |data| < WORD
      modifies this, buffer
      ensures Valid() && fed == old(fed) + data
    {
      hide Compress, Absorbed, Counts, AddedLow, AddedHigh, Whole, Rest;
      ghost var was := fed;
      PositionInBlock(count0, count1, |fed|);
      CounterAfter(count0, count1, |fed|, |data|);
      BlockTestIsRightExactlyWhen(|fed| % 64, |data|);
      var j := count0;
      CountBits(|data|);
      j := j / 8 % 64;
      var i := 0;
      if BlockCompletes(j, |data|) {
        i := 64 - j;
        FillBlock(j, data[..i]);
        ghost var first := i;
        i := AbsorbBlocks(j, data, i);
        assert data[..i] == data[..first] + data[first..i];
        j := 0;
      }
      assert data == data[..i] + data[i..];
      FillWithin(j, data[i..]);
    }

    /** The loop over whole blocks, which are compressed where they stand. */
    method AbsorbBlocks(j: nat, data: seq<byte>, start: nat) returns (i: nat)
      requires Absorbed(transform, init, regs, buffer[..], fed) && |fed| % 64 == 0
      requires j < 64 && (start + j) % 64 == 0 && start <= |data| && j + |data| < WORD
      modifies this`fed, this`regs
      ensures start <= i <= |data| < i + 64
      ensures fed == old(fed) + data[start..i] && |fed| % 64 == 0
      ensures Absorbed(transform, init, regs, buffer[..], fed)
    {
      hide Compress, Absorbed, Whole, Rest;
      i := start;
      GuardDoesNotWrap(j, i, |data|);
      while (i + 63) % WORD < |data|
        invariant start <= i <= |data| && (i + j) % 64 == 0 && (i + 63) % WORD == i + 63
        invariant fed == old(fed) + data[start..i] && |fed| % 64 == 0
        invariant Absorbed(transform, init, regs, buffer[..], fed)
      {
        assert data[start..i + 64] == data[start..i] + data[i..i + 64];
        AbsorbDirectly(transform, init, regs, buffer[..], fed, data[i..i + 64]);
        regs := transform(regs, data[i..i + 64]);
        fed := fed + data[i..i + 64];
        NextBlock(i, j);
        i := i + 64;
        GuardDoesNotWrap(j, i, |data|);
      }
    }

    /** The counter update at the top of SHA1Update. */
    method CountBits(len: uint32)
      modifies this`count0, this`count1
      ensures count0 == AddedLow(old(count0), len) && count1 == AddedHigh(old(count0), old(count1), len)
    {
      var j := count0;
      count0 := (count0 + len * 8 % WORD) % WORD;
      if count0 < j {
        count1 := (count1 + 1) % WORD;
      }
      count1 := (count1 + len / 0x2000_0000) % WORD;
    }

    /** memcpy of input that does not complete the block. */
    method FillWithin(j: nat, data: seq<byte>)
      requires Absorbed(transform, init, regs, buffer[..], fed)
      requires j == |fed| % 64 && j + |data| < 64
      modifies this`fed, buffer
      ensures fed == old(fed) + data
      ensures Absorbed(transform, init, regs, buffer[..], fed)
    {
      hide Compress;
      ghost var before := buffer[..];
      Copy(buffer, j, data);
      assert buffer[..j + |data|] == before[..j] + data;
      AbsorbWithin(transform, init, regs, buffer[..], fed, data);
      fed := fed + data;
    }

    /** memcpy of input that completes the block, and the compression. */
    method FillBlock(j: nat, data: seq<byte>)
      requires Absorbed(transform, init, regs, buffer[..], fed)
      requires j == |fed| % 64 && j + |data| == 64
      modifies this`fed, this`regs, buffer
      ensures fed == old(fed) + data && |fed| % 64 == 0
      ensures Absorbed(transform, init, regs, buffer[..], fed)
    {
      hide Compress;
      ghost var before := buffer[..];
      Copy(buffer, j, data);
      assert buffer[..] == before[..j] + data;
      AbsorbToBoundary(transform, init, regs, fed, data);
      regs := transform(regs, buffer[..]);
      fed := fed + data;
      assert Rest(fed) == [];
    }

    /**
     SHA1Final: the length is taken from the counter first, then the padding goes through Update byte
     by byte until the low counter word says 448 bits modulo 512. The loop ends because the position
     in the block moves towards 56 with every byte.
     */
    method Final() returns (digest: R)
      requires Valid()
      modifies this, buffer
      ensures digest == Sha1Digest(transform, init, old(fed))
      ensures IsSha1Digest(transform, init, old(fed), digest)
    {
      hide Compress, Absorbed, Sha1LengthField, EncodeUlong, Padded, Zeros;
      ghost var msg := fed;
      LengthFieldOfCounter(count0, count1, msg);
      var finalcount := EncodeUlong(count1) + EncodeUlong(count0);
      Update([0x80]);
      ghost var z := 0;
      ZerosStart(msg + [0x80]);
      PositionInBlock(count0, count1, |fed|);
      while count0 / 8 % 64 != 56
        invariant Valid() && z <= ZeroCount(|msg|)
        invariant fed == msg + [0x80] + Zeros(z)
        invariant count0 / 8 % 64 == |fed| % 64
        decreases ZeroCount(|msg|) - z
      {
        PositionBefore56(|msg|, z);
        ZerosNext(z);
        assert fed + [0] == msg + [0x80] + (Zeros(z) + [0]);
        Update([0]);
        z := z + 1;
        PositionInBlock(count0, count1, |fed|);
      }
      PositionBefore56(|msg|, z);
      Update(finalcount);
      DigestIsStandard(transform, init, msg);
      hide IsSha1Digest;
      PaddedIs(msg, finalcount);
      AbsorbedWhole(transform, init, regs, buffer[..], fed);
      digest := regs;
    }
  }

  /** At a block boundary a block may be compressed without going through the buffer. */
  lemma AbsorbDirectly<R(!new)>(f: (R, seq<byte>) -> R, init: R, regs: R, buffer: seq<byte>, fed: seq<byte>, block: seq<byte>)
    requires Absorbed(f, init, regs, buffer, fed) && |fed| % 64 == 0 && |block| == 64
    ensures Absorbed(f, init, f(regs, block), buffer, fed + block)
    ensures |fed + block| % 64 == 0
  {
    AbsorbToBoundary(f, init, regs, fed, block);
    assert Rest(fed) + block == block;
    assert Rest(fed + block) == [] == buffer[..0];
  }

  lemma AbsorbedWhole<R(!new)>(f: (R, seq<byte>) -> R, init: R, regs: R, buffer: seq<byte>, fed: seq<byte>)
    requires Absorbed(f, init, regs, buffer, fed) && |fed| % 64 == 0
    ensures regs == Compress(f, init, fed)
  {
    assert Whole(fed) == fed;
  }

  lemma LengthFieldOfCounter(low: uint32, high: uint32, msg: seq<byte>)
    requires Counts(low, high, |msg|)
    ensures EncodeUlong(high) + EncodeUlong(low) == Sha1LengthField(msg)
    ensures |EncodeUlong(high) + EncodeUlong(low)| == 8
  {
    PositionInBlock(low, high, |msg|);
  }

  lemma ZerosStart(s: seq<byte>)
    ensures s + Zeros(0) == s
  {
  }

  lemma ZerosNext(z: nat)
    ensures Zeros(z + 1) == Zeros(z) + [0]
  {
  }

  lemma PaddedIs(msg: seq<byte>, lengthField: seq<byte>)
    requires |lengthField| == 8
    ensures Padded(msg, lengthField) == msg + [0x80] + Zeros(ZeroCount(|msg|)) + lengthField
  {
  }

  /** Position 56 is reached for the first time after exactly ZeroCount zero bytes. */
  lemma PositionBefore56(n: nat, z: nat)
    requires z <= ZeroCount(n)
    ensures (n + 1 + z) % 64 == 56 <==> z == ZeroCount(n)
  {
    ZeroCountCases(n);
  }
}
