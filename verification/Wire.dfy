/**
 Big-endian integers on the wire, as shared/protocol_helper.hpp reads and writes them: every access
 first checks the room that is left and fails instead of running past the end.
 */
module Wire {
  type byte = b: int | 0 <= b < 0x100
  type uint16 = v: int | 0 <= v < 0x1_0000
  type uint32 = v: int | 0 <= v < 0x1_0000_0000

  /** A thrown parse_error is a Failure; which message it carries is not modelled. */
  datatype Result<+T> = Success(value: T) | Failure {
    predicate IsFailure() {
      Failure?
    }

    function PropagateFailure<U>(): Result<U>
      requires Failure?
    {
      Failure
    }

    function Extract(): T
      requires Success?
    {
      value
    }
  }

  /** `bytes` stand in `buf` from position `pos` on. */
  ghost predicate At(buf: seq<byte>, pos: nat, bytes: seq<byte>) {
    pos + |bytes| <= |buf| && buf[pos..pos + |bytes|] == bytes
  }

  lemma AtConcat(buf: seq<byte>, pos: nat, a: seq<byte>, b: seq<byte>)
    ensures At(buf, pos, a + b) <==> At(buf, pos, a) && At(buf, pos + |a|, b)
  {
    if At(buf, pos, a + b) {
      assert buf[pos..pos + |a|] == (a + b)[..|a|];
      assert buf[pos + |a|..pos + |a| + |b|] == (a + b)[|a|..];
    }
    if At(buf, pos, a) && At(buf, pos + |a|, b) {
      assert buf[pos..pos + |a + b|] == buf[pos..pos + |a|] + buf[pos + |a|..pos + |a| + |b|];
    }
  }

  lemma AtSlice(buf: seq<byte>, pos: nat, bytes: seq<byte>)
    requires At(buf, pos, bytes)
    ensures pos + |bytes| <= |buf| && buf[pos..pos + |bytes|] == bytes
  {
  }

  function EncodeShort(v: uint16): (r: seq<byte>) {
    [v / 0x100, v % 0x100]
  }

  function DecodeShort(hi: byte, lo: byte): (v: uint16) {
    hi * 0x100 + lo
  }

  function EncodeUlong(v: uint32): (r: seq<byte>) {
    EncodeShort(v / 0x1_0000) + EncodeShort(v % 0x1_0000)
  }

  /** The number that bytes spell with the most significant one first. */
  function BigEndian(bytes: seq<byte>): (v: nat) {
    if bytes == [] then 0 else BigEndian(bytes[..|bytes| - 1]) * 0x100 + bytes[|bytes| - 1]
  }

  /** Integers stand on the wire in network byte order. */
  lemma ShortInNetworkOrder(v: uint16)
    ensures |EncodeShort(v)| == 2 && BigEndian(EncodeShort(v)) == v
  {
    var e := EncodeShort(v);
    assert e[..1] == [e[0]] && e[..1][..0] == [];
    assert BigEndian(e[..1]) == e[0];
  }

  lemma UlongInNetworkOrder(v: uint32)
    ensures |EncodeUlong(v)| == 4 && BigEndian(EncodeUlong(v)) == v
  {
    var e := EncodeUlong(v);
    assert e[..3][..2] == e[..2] && e[..2][..1] == e[..1] && e[..1][..0] == [];
    assert BigEndian(e[..1]) == e[0];
    assert BigEndian(e[..2]) == BigEndian(e[..1]) * 0x100 + e[1];
    assert BigEndian(e[..3]) == BigEndian(e[..2]) * 0x100 + e[2];
  }

  function ParseShort(buf: seq<byte>, pos: nat): (r: Result<(uint16, nat)>)
    requires pos <= |buf|
    ensures r.Success? ==> r.value.1 == pos + 2 <= |buf|
  {
    if |buf| - pos < 2 then Failure else Success((DecodeShort(buf[pos], buf[pos + 1]), pos + 2))
  }

  function ParseUlong(buf: seq<byte>, pos: nat): (r: Result<(uint32, nat)>)
    requires pos <= |buf|
    ensures r.Success? ==> r.value.1 == pos + 4 <= |buf|
  {
    if |buf| - pos < 4 then Failure
    else
      var hi, lo := DecodeShort(buf[pos], buf[pos + 1]), DecodeShort(buf[pos + 2], buf[pos + 3]);
      Success((hi * 0x1_0000 + lo, pos + 4))
  }

  /** Reading a short gives back what was written, and every pair of bytes is the writing of what it reads as. */
  lemma ShortRoundTrip(buf: seq<byte>, pos: nat, v: uint16)
    requires pos <= |buf|
    ensures At(buf, pos, EncodeShort(v)) <==> ParseShort(buf, pos) == Success((v, pos + 2))
  {
    if pos + 2 <= |buf| {
      assert buf[pos..pos + 2] == [buf[pos], buf[pos + 1]];
    }
  }

  lemma UlongRoundTrip(buf: seq<byte>, pos: nat, v: uint32)
    requires pos <= |buf|
    ensures At(buf, pos, EncodeUlong(v)) <==> ParseUlong(buf, pos) == Success((v, pos + 4))
  {
    if pos + 4 <= |buf| {
      assert buf[pos..pos + 4] == [buf[pos], buf[pos + 1], buf[pos + 2], buf[pos + 3]];
    }
  }

  /** A short is read exactly when two bytes are left, and is the number they spell. */
  lemma ShortParsesExactlyWhen(buf: seq<byte>, pos: nat)
    requires pos <= |buf|
    ensures ParseShort(buf, pos).Success? <==> pos + 2 <= |buf|
    ensures pos + 2 <= |buf| ==> BigEndian(buf[pos..pos + 2]) < 0x1_0000
    ensures pos + 2 <= |buf| ==> ParseShort(buf, pos) == Success((BigEndian(buf[pos..pos + 2]), pos + 2))
  {
    if pos + 2 <= |buf| {
      var v := DecodeShort(buf[pos], buf[pos + 1]);
      ShortRoundTrip(buf, pos, v);
      ShortInNetworkOrder(v);
      assert buf[pos..pos + 2] == EncodeShort(v);
    }
  }

  lemma UlongParsesExactlyWhen(buf: seq<byte>, pos: nat)
    requires pos <= |buf|
    ensures ParseUlong(buf, pos).Success? <==> pos + 4 <= |buf|
    ensures pos + 4 <= |buf| ==> BigEndian(buf[pos..pos + 4]) < 0x1_0000_0000
    ensures pos + 4 <= |buf| ==> ParseUlong(buf, pos) == Success((BigEndian(buf[pos..pos + 4]), pos + 4))
  {
    if pos + 4 <= |buf| {
      var v := ParseUlong(buf, pos).value.0;
      UlongRoundTrip(buf, pos, v);
      UlongInNetworkOrder(v);
      assert |EncodeUlong(v)| == 4;
      assert buf[pos..pos + 4] == EncodeUlong(v);
    }
  }

  lemma IntegersIgnoreRest(buf: seq<byte>, pos: nat, rest: seq<byte>)
    requires pos <= |buf|
    ensures ParseShort(buf, pos).Success? ==> ParseShort(buf + rest, pos) == ParseShort(buf, pos)
    ensures ParseUlong(buf, pos).Success? ==> ParseUlong(buf + rest, pos) == ParseUlong(buf, pos)
  {
  }

  lemma SliceBehind(a: seq<byte>, b: seq<byte>, lo: nat, hi: nat)
    requires lo <= hi <= |b|
    ensures (a + b)[|a| + lo..|a| + hi] == b[lo..hi]
  {
  }

  /** What a writer that puts `bytes` at `pos` leaves in the buffer. */
  ghost function Overwrite(before: seq<byte>, pos: nat, bytes: seq<byte>): (r: seq<byte>)
    requires pos + |bytes| <= |before|
    ensures |r| == |before| && At(r, pos, bytes)
  {
    before[..pos] + bytes + before[pos + |bytes|..]
  }

  lemma OverwriteMeaning(before: seq<byte>, pos: nat, bytes: seq<byte>, k: nat)
    requires pos + |bytes| <= |before| && k < |before|
    ensures Overwrite(before, pos, bytes)[k] == if pos <= k < pos + |bytes| then bytes[k - pos] else before[k]
  {
  }

  lemma OverwriteTwice(before: seq<byte>, pos: nat, a: seq<byte>, b: seq<byte>)
    requires pos + |a| + |b| <= |before|
    ensures Overwrite(Overwrite(before, pos, a), pos + |a|, b) == Overwrite(before, pos, a + b)
  {
  }

  /**
   The contract of every writer: it succeeds exactly when the value may be written and fits, and
   then leaves exactly `bytes`, touching nothing else; when it fails nothing before `pos` has changed.
   */
  ghost predicate Written(before: seq<byte>, after: seq<byte>, pos: nat, bytes: seq<byte>, allowed: bool, r: Result<nat>) {
    && |after| == |before| && pos <= |before|
    && (r.Success? <==> allowed && pos + |bytes| <= |before|)
    && (r.Success? ==> r.value == pos + |bytes| && after == Overwrite(before, pos, bytes))
    && after[..pos] == before[..pos]
  }

  method WriteShort(v: uint16, buf: array<byte>, pos: nat) returns (r: Result<nat>)
    requires pos <= buf.Length
    modifies buf
    ensures Written(old(buf[..]), buf[..], pos, EncodeShort(v), true, r)
  {
    if buf.Length - pos < 2 {
      return Failure;
    }
    buf[pos] := v / 0x100;
    buf[pos + 1] := v % 0x100;
    return Success(pos + 2);
  }

  method WriteUlong(v: uint32, buf: array<byte>, pos: nat) returns (r: Result<nat>)
    requires pos <= buf.Length
    modifies buf
    ensures Written(old(buf[..]), buf[..], pos, EncodeUlong(v), true, r)
  {
    if buf.Length - pos < 4 {
      return Failure;
    }
    var hi, lo := v / 0x1_0000, v % 0x1_0000;
    buf[pos] := hi / 0x100;
    buf[pos + 1] := hi % 0x100;
    buf[pos + 2] := lo / 0x100;
    buf[pos + 3] := lo % 0x100;
    return Success(pos + 4);
  }

  /** memcpy / std::copy of a block after its length has been checked. */
  method WriteBytes(bytes: seq<byte>, buf: array<byte>, pos: nat) returns (r: Result<nat>)
    requires pos <= buf.Length
    modifies buf
    ensures Written(old(buf[..]), buf[..], pos, bytes, true, r)
  {
    if buf.Length - pos < |bytes| {
      return Failure;
    }
    var i := 0;
    while i < |bytes|
      invariant 0 <= i <= |bytes|
      invariant buf[..] == Overwrite(old(buf[..]), pos, bytes[..i])
    {
      buf[pos + i] := bytes[i];
      i := i + 1;
    }
    assert bytes[..i] == bytes;
    return Success(pos + |bytes|);
  }

  /** A successful write ends right behind what it wrote. */
  lemma WrittenEnd(before: seq<byte>, after: seq<byte>, pos: nat, bytes: seq<byte>, allowed: bool, r: Result<nat>)
    requires Written(before, after, pos, bytes, allowed, r) && r.Success?
    ensures r.value == pos + |bytes| <= |after|
  {
  }

  /** Two writes in a row are one write of the concatenation. */
  lemma WrittenThen(before: seq<byte>, middle: seq<byte>, after: seq<byte>, pos: nat,
                    a: seq<byte>, allowedA: bool, ra: Result<nat>, b: seq<byte>, allowedB: bool, r: Result<nat>)
    requires Written(before, middle, pos, a, allowedA, ra)
    requires ra.Success? ==> Written(middle, after, pos + |a|, b, allowedB, r)
    requires ra.Failure? ==> r.Failure? && after == middle
    ensures Written(before, after, pos, a + b, allowedA && allowedB, r)
  {
    if ra.Success? {
      if r.Success? {
        OverwriteTwice(before, pos, a, b);
      }
      assert after[..pos] == after[..pos + |a|][..pos] == middle[..pos];
    }
  }

  /** One step of a writing loop: `ab` extends `a` by `b`, and a failure now is a failure of `whole`. */
  lemma WrittenStep(before: seq<byte>, middle: seq<byte>, after: seq<byte>, pos: nat, at: nat,
                    a: seq<byte>, allowedA: bool, b: seq<byte>, allowedB: bool, next: Result<nat>,
                    ab: seq<byte>, allowedAB: bool, whole: seq<byte>, allowed: bool)
    requires Written(before, middle, pos, a, allowedA, Success(at))
    requires Written(middle, after, at, b, allowedB, next)
    requires ab == a + b && (allowedAB <==> allowedA && allowedB)
    requires |ab| <= |whole| && (allowed ==> allowedAB)
    ensures Written(before, after, pos, ab, allowedAB, next)
    ensures next.Failure? ==> Written(before, after, pos, whole, allowed, Failure)
  {
    WrittenThen(before, middle, after, pos, a, allowedA, Success(at), b, allowedB, next);
  }
}
