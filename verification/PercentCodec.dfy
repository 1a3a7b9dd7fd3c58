/**
 Percent encoding (RFC 3986 section 2.1) as mongoose's url_encode and url_decode do it, into buffers
 of limited size and in place.
 */
module PercentCodec {
  import opened Wire

  const PERCENT: byte := 37
  const PLUS: byte := 43
  const SPACE: byte := 32

  predicate IsDigit(c: byte) {
    48 <= c <= 57
  }

  predicate IsHexDigit(c: byte) {
    IsDigit(c) || 65 <= c <= 70 || 97 <= c <= 102
  }

  /** Letters, digits and the characters of "._-$,;~()" stay as they are. */
  predicate Unescaped(c: byte) {
    IsDigit(c) || 65 <= c <= 90 || 97 <= c <= 122 || c in [46, 95, 45, 36, 44, 59, 126, 40, 41]
  }

  function HexDigit(v: nat): (c: byte)
    requires v < 16
  {
    if v < 10 then 48 + v else 87 + v
  }

  /** HEXTOI after tolower. */
  function HexValue(c: byte): (v: nat)
    requires IsHexDigit(c)
    ensures v < 16
  {
    if IsDigit(c) then c - 48 else if c <= 70 then c + 32 - 87 else c - 87
  }

  function EncodeByte(c: byte): (r: seq<byte>) {
    if Unescaped(c) then [c] else [PERCENT, HexDigit(c / 16), HexDigit(c % 16)]
  }

  function Encode(s: seq<byte>): (r: seq<byte>) {
    if s == [] then [] else EncodeByte(s[0]) + Encode(s[1..])
  }

  /** Memory beyond the modelled bytes holds the terminating NUL. */
  function ByteAt(mem: seq<byte>, i: nat): (b: byte) {
    if i < |mem| then mem[i] else 0
  }

  predicate EscapeAt(mem: seq<byte>, i: nat) {
    ByteAt(mem, i) == PERCENT && IsHexDigit(ByteAt(mem, i + 1)) && IsHexDigit(ByteAt(mem, i + 2))
  }

  /** The byte decoded at position i and the position after it. */
  function DecodeOne(mem: seq<byte>, i: nat, form: bool): (r: (byte, nat))
    ensures i < r.1 <= i + 3
  {
    if EscapeAt(mem, i) then (HexValue(ByteAt(mem, i + 1)) * 16 + HexValue(ByteAt(mem, i + 2)), i + 3)
    else if form && ByteAt(mem, i) == PLUS then (SPACE, i + 1)
    else (ByteAt(mem, i), i + 1)
  }

  /** Everything decoded from position i up to the source length, given room enough. */
  function Decode(mem: seq<byte>, i: nat, srcLen: nat, form: bool): (r: seq<byte>)
    decreases srcLen - i
  {
    if i >= srcLen then [] else
      var one := DecodeOne(mem, i, form);
      [one.0] + Decode(mem, one.1, srcLen, form)
  }

  // ---------------------------------------------------------------- what is escaped and decoded

  const HEX: string := "0123456789abcdef"

  /** Letters, digits and nine punctuation characters, written out. */
  predicate IsSafe(c: char) {
    'a' <= c <= 'z' || 'A' <= c <= 'Z' || '0' <= c <= '9' || c in {'.', '_', '-', '$', ',', ';', '~', '(', ')'}
  }

  /**
   Encoding goes byte by byte: a safe character stays as it is, and every other byte becomes a percent
   sign and two lower-case hexadecimal digits.
   */
  lemma EncodeMeaning(s: seq<byte>)
    ensures Encode([]) == []
    ensures s != [] ==> var c := s[0];
      Encode(s) == (if IsSafe(c as char) then [c] else ['%' as byte, HEX[c / 16] as byte, HEX[c % 16] as byte]) + Encode(s[1..])
  {
    if s != [] {
      HexIsTable(s[0] / 16);
      HexIsTable(s[0] % 16);
      SafeIsUnescaped(s[0]);
      hide HexDigit, Unescaped, IsSafe;
    }
  }

  lemma HexIsTable(v: nat)
    requires v < 16
    ensures HexDigit(v) == HEX[v] as int
  {
    match v
    case 0 | 1 | 2 | 3 | 4 | 5 | 6 | 7 | 8 | 9 | 10 | 11 | 12 | 13 | 14 | 15 =>
    case _ =>
  }

  lemma SafeIsUnescaped(c: byte)
    ensures IsSafe(c as char) <==> Unescaped(c)
  {
  }

  /** The value of a hexadecimal digit of either case, written out. */
  ghost predicate IsDigitFor(c: byte, v: nat) {
    || ('0' as int <= c <= '9' as int && v == c - '0' as int)
    || ((c == 'a' as int || c == 'A' as int) && v == 10) || ((c == 'b' as int || c == 'B' as int) && v == 11)
    || ((c == 'c' as int || c == 'C' as int) && v == 12) || ((c == 'd' as int || c == 'D' as int) && v == 13)
    || ((c == 'e' as int || c == 'E' as int) && v == 14) || ((c == 'f' as int || c == 'F' as int) && v == 15)
  }

  ghost predicate IsAnyDigit(c: byte) {
    '0' as int <= c <= '9' as int || 'a' as int <= c <= 'f' as int || 'A' as int <= c <= 'F' as int
  }

  lemma DigitValue(c: byte, v: nat)
    ensures IsDigitFor(c, v) <==> IsHexDigit(c) && v == HexValue(c)
    ensures IsAnyDigit(c) <==> IsHexDigit(c)
  {
  }

  /** A percent sign before two hexadecimal digits of either case stands with them for the byte they spell. */
  lemma EscapeDecodes(mem: seq<byte>, i: nat, srcLen: nat, form: bool, h: nat, l: nat)
    requires i < srcLen && ByteAt(mem, i) == '%' as int
    requires IsDigitFor(ByteAt(mem, i + 1), h) && IsDigitFor(ByteAt(mem, i + 2), l)
    ensures 16 * h + l < 0x100 && Decode(mem, i, srcLen, form) == [(16 * h + l) as byte] + Decode(mem, i + 3, srcLen, form)
  {
    DigitValue(ByteAt(mem, i + 1), h);
    DigitValue(ByteAt(mem, i + 2), l);
    hide IsDigitFor, IsHexDigit, HexValue;
  }

  /**
   In all other cases: a plus sign is a space in form data, and everything else, a percent sign without
   two digits behind it included, stands for itself.
   */
  lemma OtherBytesDecode(mem: seq<byte>, i: nat, srcLen: nat, form: bool)
    requires !(ByteAt(mem, i) == '%' as int && IsAnyDigit(ByteAt(mem, i + 1)) && IsAnyDigit(ByteAt(mem, i + 2)))
    ensures Decode(mem, i, srcLen, form) == if i >= srcLen then [] else
      [if form && ByteAt(mem, i) == '+' as int then ' ' as byte else ByteAt(mem, i)] + Decode(mem, i + 1, srcLen, form)
  {
    DigitValue(ByteAt(mem, i + 1), 0);
    DigitValue(ByteAt(mem, i + 2), 0);
  }

  /** A source without percent signs decodes position by position. */
  lemma {:induction false} PlainDecodes(mem: seq<byte>, i: nat, srcLen: nat, form: bool)
    requires i <= srcLen <= |mem| && '%' as byte !in mem[i..srcLen]
    ensures |Decode(mem, i, srcLen, form)| == srcLen - i
    ensures forall k :: 0 <= k < srcLen - i ==>
      Decode(mem, i, srcLen, form)[k] == if form && mem[i + k] == '+' as int then ' ' as int else mem[i + k]
    decreases srcLen - i
  {
    if i == srcLen {
      DecodeNothing(mem, i, srcLen, form);
    } else {
      assert mem[i] == mem[i..srcLen][0];
      assert mem[i + 1..srcLen] == mem[i..srcLen][1..];
      OtherBytesDecode(mem, i, srcLen, form);
      hide Decode;
      PlainDecodes(mem, i + 1, srcLen, form);
    }
  }

  // ---------------------------------------------------------------- round trip

  lemma HexRoundTrip(c: byte)
    ensures IsHexDigit(HexDigit(c / 16)) && IsHexDigit(HexDigit(c % 16))
    ensures HexValue(HexDigit(c / 16)) * 16 + HexValue(HexDigit(c % 16)) == c
  {
  }

  lemma {:induction false} DecodeEncoded(mem: seq<byte>, i: nat, s: seq<byte>, form: bool)
    requires At(mem, i, Encode(s))
    ensures Decode(mem, i, i + |Encode(s)|, form) == s
    decreases |s|
  {
    if s != [] {
      var c, rest := s[0], Encode(s[1..]);
      AtConcat(mem, i, EncodeByte(c), rest);
      DecodeEncoded(mem, i + |EncodeByte(c)|, s[1..], form);
      DecodeOneEncoded(mem, i, c, form);
    }
  }

  lemma DecodeOneEncoded(mem: seq<byte>, i: nat, c: byte, form: bool)
    requires At(mem, i, EncodeByte(c))
    ensures DecodeOne(mem, i, form) == (c, i + |EncodeByte(c)|)
  {
    HexRoundTrip(c);
    var e := EncodeByte(c);
    var there := mem[i..i + |e|];
    assert mem[i] == there[0];
    if !Unescaped(c) {
      assert mem[i + 1] == there[1] && mem[i + 2] == there[2];
    }
  }

  /** Decoding what was encoded gives back the original bytes, under either form flag, wherever it stands. */
  lemma RoundTrip(mem: seq<byte>, s: seq<byte>, form: bool)
    requires At(mem, 0, Encode(s))
    ensures Decode(mem, 0, |Encode(s)|, form) == s
  {
    DecodeEncoded(mem, 0, s, form);
  }

  lemma {:induction false} EncodedLength(s: seq<byte>)
    ensures |s| <= |Encode(s)| <= 3 * |s|
  {
    if s != [] {
      EncodedLength(s[1..]);
    }
  }

  // ---------------------------------------------------------------- the code

  /**
   `dst` starts with the encoding of the first g bytes of src, and either these are all of src or
   an escape that needs more than the room left is next.
   */
  ghost predicate EncodedUpTo(src: seq<byte>, g: nat, dst: seq<byte>, room: nat)
    requires g <= |src|
  {
    && |Encode(src[..g])| <= room && |Encode(src[..g])| < |dst|
    && dst[..|Encode(src[..g])|] == Encode(src[..g])
    && (g == |src| || (|Encode(src[..g])| + |EncodeByte(src[g])| > room))
  }

  /**
   url_encode of a C string. What is written is the longest encoding of a prefix that leaves room
   for the terminator; when that is the whole string, the terminator follows it directly, and the
   buffer is terminated within `dstLen` in any case.
   */
  method UrlEncode(src: seq<byte>, dst: array<byte>, dstLen: nat) returns (ghost g: nat)
    requires 1 <= dstLen <= dst.Length && 0 !in src
    modifies dst
    ensures g <= |src| && EncodedUpTo(src, g, dst[..], dstLen - 1)
    ensures g == |src| <==> |Encode(src)| + 1 <= dstLen
    ensures g == |src| ==> dst[|Encode(src)|] == 0
    ensures exists d :: 0 <= d < dstLen && dst[d] == 0
    ensures forall k :: dstLen <= k < dst.Length ==> dst[k] == old(dst[k])
  {
    hide HexDigit, Encode;
    var end := dstLen - 1;
    var i, d := 0, 0;
    g := 0;
    EncodeNothing(src);
    while i < |src| && d < end
      invariant 0 <= g <= i <= |src| && |Encode(src[..g])| <= d <= end
      invariant dst[..|Encode(src[..g])|] == Encode(src[..g])
      invariant g == i ==> d == |Encode(src[..g])|
      invariant g < i ==> |Encode(src[..g])| + |EncodeByte(src[g])| > end
      invariant forall k :: dstLen <= k < dst.Length ==> dst[k] == old(dst[k])
    {
      ghost var before := dst[..d];
      ghost var whole := g == i;
      EncodeStep(src, i);
      if Unescaped(src[i]) {
        dst[d] := src[i];
        assert dst[..d + 1] == before + [src[i]];
        g := if whole then i + 1 else g;
      } else if d + 2 < end {
        WriteEscape(dst, d, src[i]);
        d := d + 2;
        assert whole;
        g := i + 1;
      }
      i, d := i + 1, d + 1;
    }
    if i < |src| {
      EncodeStep(src, i);
    }
    EncodePrefix(src, g);
    assert g == |src| ==> src[..g] == src;
    dst[d] := 0;
  }

  /** A longer prefix has a longer encoding. */
  lemma {:induction false} EncodePrefix(src: seq<byte>, g: nat)
    requires g <= |src|
    ensures |Encode(src[..g])| <= |Encode(src)|
    ensures g < |src| ==> |Encode(src[..g])| + |EncodeByte(src[g])| <= |Encode(src)|
    decreases |src| - g
  {
    if g == |src| {
      assert src[..g] == src;
    } else {
      EncodeStep(src, g);
      EncodePrefix(src, g + 1);
    }
  }

  method WriteEscape(dst: array<byte>, d: nat, c: byte)
    requires d + 3 <= dst.Length
    modifies dst
    ensures dst[..d + 3] == old(dst[..d]) + [PERCENT, HexDigit(c / 16), HexDigit(c % 16)]
    ensures forall k :: d + 3 <= k < dst.Length ==> dst[k] == old(dst[k])
  {
    ghost var before := dst[..d];
    dst[d] := PERCENT;
    dst[d + 1] := HexDigit(c / 16);
    dst[d + 2] := HexDigit(c % 16);
    assert dst[..d] == before;
  }

  lemma EncodeNothing(src: seq<byte>)
    ensures Encode(src[..0]) == [] && src[0..] == src
  {
  }

  lemma EncodeStep(src: seq<byte>, i: nat)
    requires i < |src|
    ensures Encode(src[..i + 1]) == Encode(src[..i]) + EncodeByte(src[i])
    ensures |Encode(src[i..])| == |EncodeByte(src[i])| + |Encode(src[i + 1..])|
  {
    assert src[i..][1..] == src[i + 1..];
    EncodeSnoc(src[..i], src[i]);
    assert src[..i + 1] == src[..i] + [src[i]];
  }

  lemma {:induction false} EncodeSnoc(s: seq<byte>, c: byte)
    ensures Encode(s + [c]) == Encode(s) + EncodeByte(c)
  {
    hide EncodeByte;
    if s == [] {
      assert [c][1..] == [] && [] + [c] == [c];
    } else {
      EncodeSnoc(s[1..], c);
      assert (s + [c])[1..] == s[1..] + [c];
    }
  }

  lemma DecodeStep(mem: seq<byte>, i: nat, srcLen: nat, form: bool)
    requires i < srcLen
    ensures Decode(mem, i, srcLen, form) ==
      [DecodeOne(mem, i, form).0] + Decode(mem, DecodeOne(mem, i, form).1, srcLen, form)
  {
  }

  /**
   url_decode, into another buffer or in place. Given room it writes everything decoded from the
   source as it was before the call and returns its length; otherwise it fills the buffer and
   returns -1. The result is always terminated.
   */
  method UrlDecode(src: array<byte>, srcLen: nat, dst: array<byte>, dstLen: nat, form: bool) returns (n: int)
    requires srcLen <= src.Length && 1 <= dstLen <= dst.Length
    modifies dst
    ensures var d := old(Decode(src[..], 0, srcLen, form));
      if |d| < dstLen then n == |d| && dst[..n] == d && dst[n] == 0
      else n == -1 && dst[..dstLen - 1] == d[..dstLen - 1] && dst[dstLen - 1] == 0
    ensures forall k :: dstLen <= k < dst.Length ==> dst[k] == old(dst[k])
  {
    hide DecodeOne, Decode;
    ghost var mem := src[..];
    ghost var all := Decode(mem, 0, srcLen, form);
    var i, j := 0, 0;
    while i < srcLen && j < dstLen - 1
      invariant 0 <= j <= i && j <= dstLen - 1
      invariant all == dst[..j] + Decode(mem, i, srcLen, form)
      invariant forall k :: i <= k < src.Length ==> src[k] == mem[k]
      invariant forall k :: dstLen <= k < dst.Length ==> dst[k] == old(dst[k])
    {
      ghost var done := dst[..j];
      DecodeStep(mem, i, srcLen, form);
      var c, next := ReadOne(src, i, form, mem);
      dst[j] := c;
      assert dst[..j + 1] == done + [c];
      i, j := next, j + 1;
    }
    if i < srcLen {
      DecodeStep(mem, i, srcLen, form);
    } else {
      DecodeNothing(mem, i, srcLen, form);
    }
    dst[j] := 0;
    return if i >= srcLen then j else -1;
  }

  lemma DecodeNothing(mem: seq<byte>, i: nat, srcLen: nat, form: bool)
    requires i >= srcLen
    ensures Decode(mem, i, srcLen, form) == []
  {
  }

  /** One turn of the loop: what is read at position i, where the source is still untouched. */
  method ReadOne(src: array<byte>, i: nat, form: bool, ghost mem: seq<byte>) returns (c: byte, next: nat)
    requires i < src.Length == |mem| && forall k :: i <= k < src.Length ==> src[k] == mem[k]
    ensures (c, next) == DecodeOne(mem, i, form)
  {
    var a := if i + 1 < src.Length then src[i + 1] else 0;
    var b := if i + 2 < src.Length then src[i + 2] else 0;
    if src[i] == PERCENT && IsHexDigit(a) && IsHexDigit(b) {
      return HexValue(a) * 16 + HexValue(b), i + 3;
    } else if form && src[i] == PLUS {
      return SPACE, i + 1;
    } else {
      return src[i], i + 1;
    }
  }

  /** So decoding an encoded string in place restores it. */
  method EncodeThenDecodeInPlace(s: seq<byte>, buf: array<byte>, form: bool) returns (n: int)
    requires 0 !in s && |Encode(s)| + 1 <= buf.Length
    modifies buf
    ensures n == |s| <= buf.Length && buf[..n] == s
  {
    ghost var g := UrlEncode(s, buf, buf.Length);
    assert s[..g] == s;
    ghost var mem := buf[..];
    assert mem[0..0 + |Encode(s)|] == Encode(s);
    RoundTrip(mem, s, form);
    EncodedLength(s);
    n := UrlDecode(buf, |Encode(s)|, buf, buf.Length, form);
  }
}
