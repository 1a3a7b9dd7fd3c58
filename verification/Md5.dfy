/** The MD5 context of mongoose, for any compression function in place of MD5Transform. */
module Md5 {
  import opened Wire
  import opened StreamingDigests

  ghost function Md5Digest<R(!new)>(f: (R, seq<byte>) -> R, init: R, msg: seq<byte>): R {
    Compress(f, init, Padded(msg, Md5LengthField(msg)))
  }

  /** The digest by the standard: the compression of the one message that pads `msg` as prescribed. */
  ghost predicate IsMd5Digest<R(!new)>(f: (R, seq<byte>) -> R, init: R, msg: seq<byte>, digest: R) {
    exists r: seq<byte> :: IsMd5Padding(msg, r) && digest == Compress(f, init, r)
  }

  lemma DigestIsStandard<R(!new)>(f: (R, seq<byte>) -> R, init: R, msg: seq<byte>)
    ensures IsMd5Digest(f, init, msg, Md5Digest(f, init, msg))
  {
    Md5PaddingIsStandard(msg);
    hide Padded, IsMd5Padding, Compress;
  }

  class Md5Context<R(!new)> {
    const transform: (R, seq<byte>) -> R
    const init: R
    var regs: R
    var bits0: uint32
    var bits1: uint32
    const in_: array<byte>
    /** Everything that has been fed so far. */
    ghost var fed: seq<byte>

    ghost predicate Valid()
      reads this, in_
    {
      && Counts(bits0, bits1, |fed|)
      && Absorbed(transform, init, regs, in_[..], fed)
    }

    /** MD5Init */
    constructor (transform: (R, seq<byte>) -> R, init: R)
      ensures Valid() && fed == [] && fresh(in_)
      ensures this.transform == transform && this.init == init
    {
      this.transform, this.init, regs := transform, init, init;
      bits0, bits1 := 0, 0;
      in_ := new byte[64](_ => 0);
      fed := [];
    }

    /** MD5Update: afterwards the context has been fed `data` as well, however the input is split. */
    method Update(data: seq<byte>)
      requires Valid() && |data| < WORD
      modifies this, in_
      ensures Valid() && fed == old(fed) + data
    {
      hide Compress, Absorbed, Counts, AddedLow, AddedHigh;
      ghost var was := fed;
      PositionInBlock(bits0, bits1, |fed|);
      CounterAfter(bits0, bits1, |fed|, |data|);
      var t := bits0;
      CountBits(|data|);
      t := t / 8 % 64;
      var buf := data;
      if t != 0 {
        var room := 64 - t;
        if |buf| < room {
          FillWithin(t, buf);
          return;
        }
        FillBlock(t, buf[..room]);
        assert was + data == (was + buf[..room]) + buf[room..];
        buf := buf[room..];
      }
      while |buf| >= 64
        invariant fed + buf == was + data
        invariant |fed| % 64 == 0 && Absorbed(transform, init, regs, in_[..], fed)
        invariant bits0 == AddedLow(old(bits0), |data|) && bits1 == AddedHigh(old(bits0), old(bits1), |data|)
      {
        assert fed + buf == (fed + buf[..64]) + buf[64..];
        FillBlock(0, buf[..64]);
        buf := buf[64..];
      }
      FillWithin(0, buf);
    }

    /** The counter update at the top of MD5Update. */
    method CountBits(len: uint32)
      modifies this`bits0, this`bits1
      ensures bits0 == AddedLow(old(bits0), len) && bits1 == AddedHigh(old(bits0), old(bits1), len)
    {
      var t := bits0;
      bits0 := (t + len * 8 % WORD) % WORD;
      if bits0 < t {
        bits1 := (bits1 + 1) % WORD;
      }
      bits1 := (bits1 + len / 0x2000_0000) % WORD;
    }

    /** memcpy of input that does not complete the block. */
    method FillWithin(t: nat, data: seq<byte>)
      requires Absorbed(transform, init, regs, in_[..], fed)
      requires t == |fed| % 64 && t + |data| < 64
      modifies this`fed, in_
      ensures fed == old(fed) + data
      ensures Absorbed(transform, init, regs, in_[..], fed)
    {
      hide Compress;
      ghost var before := in_[..];
      Copy(in_, t, data);
      assert in_[..t + |data|] == before[..t] + data;
      AbsorbWithin(transform, init, regs, in_[..], fed, data);
      fed := fed + data;
    }

    /** memcpy of input that completes the block, and the compression. */
    method FillBlock(t: nat, data: seq<byte>)
      requires Absorbed(transform, init, regs, in_[..], fed)
      requires t == |fed| % 64 && t + |data| == 64
      modifies this`fed, this`regs, in_
      ensures fed == old(fed) + data && |fed| % 64 == 0
      ensures Absorbed(transform, init, regs, in_[..], fed)
    {
      hide Compress;
      ghost var before := in_[..];
      Copy(in_, t, data);
      assert in_[..] == before[..t] + data;
      AbsorbToBoundary(transform, init, regs, fed, data);
      regs := transform(regs, in_[..]);
      fed := fed + data;
      assert Rest(fed) == [];
    }

    /**
     MD5Final: pads and compresses. The result is the digest of everything fed, by the standard's
     definition.
     */
    method Final() returns (digest: R)
      requires Valid()
      modifies this, in_
      ensures digest == Md5Digest(transform, init, old(fed))
      ensures IsMd5Digest(transform, init, old(fed), digest)
    {
      hide Compress, Whole, Rest, LittleEndian32, Md5LengthField, Padded, Zeros;
      ghost var msg := fed;
      PositionInBlock(bits0, bits1, |msg|);
      LengthFieldOfCounter(bits0, bits1, msg);
      hide Counts;
      RestLength(msg);
      var count := bits0 / 8 % 64;
      PadTo56(count);
      var lengthField := LittleEndian32(bits0) + LittleEndian32(bits1);
      ghost var first := in_[..56];
      Copy(in_, 56, lengthField);
      assert in_[..] == first + lengthField;
      regs := transform(regs, in_[..]);
      DigestIsStandard(transform, init, msg);
      hide IsMd5Digest;
      PaddedCompress(transform, init, msg, lengthField);
      digest := regs;
    }

    /** The 0x80 and the zeros, with the extra block when fewer than eight bytes would be left. */
    method PadTo56(count: nat)
      requires in_.Length == 64 && count < 64
      modifies this`regs, in_
      ensures var head, left := old(in_[..])[..count] + [0x80], 63 - count;
        if left < 8
        then regs == transform(old(regs), head + Zeros(left)) && in_[..56] == Zeros(56)
        else regs == old(regs) && in_[..56] == head + Zeros(left - 8)
    {
      ghost var head := in_[..count] + [0x80];
      in_[count] := 0x80;
      assert in_[..count + 1] == head;
      var left := 64 - 1 - count;
      if left < 8 {
        Copy(in_, count + 1, Zeros(left));
        assert in_[..] == head + Zeros(left);
        regs := transform(regs, in_[..]);
        Copy(in_, 0, Zeros(56));
      } else {
        Copy(in_, count + 1, Zeros(left - 8));
        assert in_[..56] == head + Zeros(left - 8);
      }
    }
  }

  lemma LengthFieldOfCounter(low: uint32, high: uint32, msg: seq<byte>)
    requires Counts(low, high, |msg|)
    ensures LittleEndian32(low) + LittleEndian32(high) == Md5LengthField(msg)
  {
    PositionInBlock(low, high, |msg|);
  }

  lemma RestLength(msg: seq<byte>)
    ensures |Rest(msg)| == |msg| % 64
  {
  }

  function Joined(strings: seq<seq<byte>>): (r: seq<byte>) {
    if strings == [] then [] else strings[0] + Joined(strings[1..])
  }

  lemma {:induction false} JoinedSnoc(strings: seq<seq<byte>>, i: nat)
    requires i < |strings|
    ensures Joined([]) == [] && Joined(strings[..i + 1]) == Joined(strings[..i]) + strings[i]
    decreases i
  {
    if i == 0 {
      assert strings[..1] == [strings[0]] && strings[..0] == [];
    } else {
      JoinedSnoc(strings[1..], i - 1);
      assert strings[1..][..i] == strings[..i + 1][1..] && strings[1..][..i - 1] == strings[..i][1..];
    }
  }

  /** mg_md5: the digest of a list of strings is the digest of their concatenation. */
  method MgMd5<R(!new)>(transform: (R, seq<byte>) -> R, init: R, strings: seq<seq<byte>>) returns (digest: R)
    requires forall i :: 0 <= i < |strings| ==> |strings[i]| < WORD
    ensures digest == Md5Digest(transform, init, Joined(strings))
    ensures IsMd5Digest(transform, init, Joined(strings), digest)
  {
    var ctx := new Md5Context(transform, init);
    var i := 0;
    while i < |strings|
      invariant 0 <= i <= |strings|
      invariant fresh(ctx) && fresh(ctx.in_) && ctx.Valid() && ctx.transform == transform && ctx.init == init
      invariant ctx.fed == Joined(strings[..i])
    {
      JoinedSnoc(strings, i);
      ctx.Update(strings[i]);
      i := i + 1;
    }
    assert strings[..i] == strings;
    digest := ctx.Final();
  }
}
