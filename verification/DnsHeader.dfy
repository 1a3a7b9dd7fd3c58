/** The twelve-byte DNS header (RFC 1035 section 4.1.1), read and written in place. */
module DnsHeader {
  import opened Wire
  import opened Powers

  datatype Opcode = O_QUERY | O_IQUERY | O_STATUS | O_RESERVED

  datatype Rcode =
    | R_SUCCESS | R_FORMAT_ERROR | R_SERVER_FAILURE | R_NAME_ERROR | R_NOT_IMPLEMENTED | R_REFUSED | R_RESERVED

  function RcodeValue(code: Rcode): (v: byte) {
    match code
    case R_SUCCESS => 0
    case R_FORMAT_ERROR => 1
    case R_SERVER_FAILURE => 2
    case R_NAME_ERROR => 3
    case R_NOT_IMPLEMENTED => 4
    case R_REFUSED => 5
    case R_RESERVED => 6
  }

  /** Single-bit masks; the accessors use 0x80, 0x04, 0x02 and 0x01. */
  predicate IsMask(mask: byte) {
    mask in {0x01, 0x02, 0x04, 0x08, 0x10, 0x20, 0x40, 0x80}
  }

  /** b & mask != 0 */
  predicate BitOf(b: byte, mask: byte)
    requires IsMask(mask)
  {
    match mask
    case 0x01 => b % 2 == 1
    case 0x02 => b / 2 % 2 == 1
    case 0x04 => b / 4 % 2 == 1
    case 0x08 => b / 8 % 2 == 1
    case 0x10 => b / 16 % 2 == 1
    case 0x20 => b / 32 % 2 == 1
    case 0x40 => b / 64 % 2 == 1
    case _ => b / 128 == 1
  }

  /** b | mask or b & ~mask. */
  function WithBit(b: byte, mask: byte, val: bool): (r: byte)
    requires IsMask(mask)
  {
    WithBitInRange(b, mask);
    if BitOf(b, mask) == val then b else if val then b + mask else b - mask
  }

  lemma WithBitInRange(b: byte, mask: byte)
    requires IsMask(mask)
    ensures BitOf(b, mask) ==> b >= mask
    ensures !BitOf(b, mask) ==> b + mask < 0x100
  {
    match mask
    case 1 =>
    case 2 =>
    case 4 =>
    case 8 =>
    case 16 =>
    case 32 =>
    case 64 =>
    case _ =>
  }

  /** Setting a bit takes its old value out of the sum of the bits and puts the new one in. */
  lemma WithBitMeaning(b: byte, mask: byte, val: bool)
    requires IsMask(mask)
    ensures WithBit(b, mask, val) == b - (if b / mask % 2 == 1 then mask else 0) + if val then mask else 0
  {
    match mask
    case 1 =>
    case 2 =>
    case 4 =>
    case 8 =>
    case 16 =>
    case 32 =>
    case 64 =>
    case _ =>
  }

  /** Bitwise or. */
  function Or(a: nat, b: nat): (r: nat) {
    if a == 0 && b == 0 then 0
    else 2 * Or(a / 2, b / 2) + if a % 2 == 1 || b % 2 == 1 then 1 else 0
  }

  lemma {:induction false} OrStaysBelow(a: nat, b: nat, n: nat)
    requires a < Pow2(n) && b < Pow2(n)
    ensures Or(a, b) < Pow2(n)
  {
    if n > 0 {
      OrStaysBelow(a / 2, b / 2, n - 1);
    }
  }

  function OrBytes(a: byte, b: byte): (r: byte) {
    assert Pow2(8) == 0x100;
    OrStaysBelow(a, b, 8);
    Or(a, b)
  }

  lemma {:induction false} OrWithZero(b: nat)
    ensures Or(0, b) == b
  {
    if b > 0 {
      OrWithZero(b / 2);
    }
  }

  /** The bytes that compose_dns_header produces for a reply; counts are cut to 16 bits. */
  function ReplyHeader(id: uint16, rd: bool, rcode: Rcode, qd: nat, an: nat, ns: nat, ar: nat): (h: seq<byte>)
    ensures |h| == 12
  {
    EncodeShort(id)
    + [0x84 + if rd then 1 else 0, RcodeValue(rcode)]
    + EncodeShort(qd % 0x1_0000) + EncodeShort(an % 0x1_0000) + EncodeShort(ns % 0x1_0000) + EncodeShort(ar % 0x1_0000)
  }

  /** Where everything stands in a reply header (RFC 1035 section 4.1.1). */
  lemma ReplyHeaderLayout(id: uint16, rd: bool, rcode: Rcode, qd: nat, an: nat, ns: nat, ar: nat)
    ensures var h := ReplyHeader(id, rd, rcode, qd, an, ns, ar);
      && BigEndian(h[..2]) == id
      // QR 1, opcode 0, AA 1, TC 0, RD, then RA, Z and the code
      && h[2] == 0x80 + 0x04 + (if rd then 1 else 0)
      && h[3] == (if rcode == R_SUCCESS then 0 else if rcode == R_FORMAT_ERROR then 1
                  else if rcode == R_SERVER_FAILURE then 2 else if rcode == R_NAME_ERROR then 3
                  else if rcode == R_NOT_IMPLEMENTED then 4 else if rcode == R_REFUSED then 5 else 6)
      && BigEndian(h[4..6]) == qd % 0x1_0000 && BigEndian(h[6..8]) == an % 0x1_0000
      && BigEndian(h[8..10]) == ns % 0x1_0000 && BigEndian(h[10..]) == ar % 0x1_0000
  {
    var h := ReplyHeader(id, rd, rcode, qd, an, ns, ar);
    ShortInNetworkOrder(id);
    ShortInNetworkOrder(qd % 0x1_0000);
    ShortInNetworkOrder(an % 0x1_0000);
    ShortInNetworkOrder(ns % 0x1_0000);
    ShortInNetworkOrder(ar % 0x1_0000);
    hide BigEndian;
    assert h[..2] == EncodeShort(id) && h[4..6] == EncodeShort(qd % 0x1_0000) && h[6..8] == EncodeShort(an % 0x1_0000);
    assert h[8..10] == EncodeShort(ns % 0x1_0000) && h[10..] == EncodeShort(ar % 0x1_0000);
  }

  class DnsQueryHeader {
    const buf: array<byte>

    ghost predicate Valid() {
      buf.Length == 12
    }

    constructor ()
      ensures Valid() && fresh(buf) && buf[..] == seq(12, i => 0)
    {
      buf := new byte[12](i => 0);
    }

    method Clear()
      requires Valid()
      modifies buf
      ensures buf[..] == seq(12, i => 0)
    {
      var i := 0;
      while i < 12
        invariant 0 <= i <= 12 && forall j :: 0 <= j < i ==> buf[j] == 0
      {
        buf[i] := 0;
        i := i + 1;
      }
    }

    function ReadShort(offset: nat): (v: uint16)
      requires Valid() && offset + 1 < 12
      reads buf
    {
      DecodeShort(buf[offset], buf[offset + 1])
    }

    method WriteShort(offset: nat, v: uint16)
      requires Valid() && offset + 1 < 12
      modifies buf
      ensures buf[..] == old(buf[..])[offset := v / 0x100][offset + 1 := v % 0x100]
    {
      buf[offset], buf[offset + 1] := v / 0x100, v % 0x100;
    }

    predicate GetBit(index: nat, mask: byte)
      requires Valid() && index < 12 && IsMask(mask)
      reads buf
    {
      BitOf(buf[index], mask)
    }

    method SetBit(index: nat, mask: byte, val: bool)
      requires Valid() && index < 12 && IsMask(mask)
      modifies buf
      ensures buf[..] == old(buf[..])[index := WithBit(old(buf[index]), mask, val)]
    {
      buf[index] := WithBit(buf[index], mask, val);
    }

    function Id(): uint16 requires Valid() reads buf { ReadShort(0) }
    function QdCount(): uint16 requires Valid() reads buf { ReadShort(4) }
    function AnCount(): uint16 requires Valid() reads buf { ReadShort(6) }
    function NsCount(): uint16 requires Valid() reads buf { ReadShort(8) }
    function ArCount(): uint16 requires Valid() reads buf { ReadShort(10) }
    predicate Qr() requires Valid() reads buf { GetBit(2, 0x80) }
    predicate Aa() requires Valid() reads buf { GetBit(2, 0x04) }
    predicate Tc() requires Valid() reads buf { GetBit(2, 0x02) }
    predicate Rd() requires Valid() reads buf { GetBit(2, 0x01) }
    predicate Ra() requires Valid() reads buf { GetBit(3, 0x80) }
    function Z(): byte requires Valid() reads buf { buf[3] / 0x40 % 2 }
    function AdCd(): byte requires Valid() reads buf { buf[3] / 0x10 % 4 }

    function GetOpcode(): Opcode
      requires Valid()
      reads buf
    {
      match buf[2] / 8 % 16
      case 0 => O_QUERY
      case 1 => O_IQUERY
      case 2 => O_STATUS
      case _ => O_RESERVED
    }

    function GetRcode(): Rcode
      requires Valid()
      reads buf
    {
      match buf[3] % 16
      case 0 => R_SUCCESS
      case 1 => R_FORMAT_ERROR
      case 2 => R_SERVER_FAILURE
      case 3 => R_NAME_ERROR
      case 4 => R_NOT_IMPLEMENTED
      case 5 => R_REFUSED
      case _ => R_RESERVED
    }

    /** The setter ors the code in; it stores the code itself only when the nibble was clear. */
    method SetRcode(code: Rcode)
      requires Valid()
      modifies buf
      ensures buf[..] == old(buf[..])[3 := OrBytes(old(buf[3]), RcodeValue(code))]
    {
      buf[3] := OrBytes(buf[3], RcodeValue(code));
    }

    /** compose_dns_header */
    method Compose(id: uint16, rd: bool, rcode: Rcode, qd: nat, an: nat, ns: nat, ar: nat)
      requires Valid()
      modifies buf
      ensures buf[..] == ReplyHeader(id, rd, rcode, qd, an, ns, ar)
    {
      hide WithBit, BitOf;
      Clear();
      WriteShort(0, id);
      SetBit(2, 0x80, true);
      SetBit(2, 0x04, true);
      SetBit(2, 0x01, rd);
      FlagByte(rd);
      OrWithZero(RcodeValue(rcode));
      SetRcode(rcode);
      assert buf[..4] == EncodeShort(id) + [0x84 + if rd then 1 else 0, RcodeValue(rcode)];
      WriteCounts(qd, an, ns, ar);
    }

    /** The four counts, cut to 16 bits each. */
    method WriteCounts(qd: nat, an: nat, ns: nat, ar: nat)
      requires Valid()
      modifies buf
      ensures buf[..] == old(buf[..4]) + EncodeShort(qd % 0x1_0000) + EncodeShort(an % 0x1_0000)
        + EncodeShort(ns % 0x1_0000) + EncodeShort(ar % 0x1_0000)
    {
      WriteShort(4, qd % 0x1_0000);
      WriteShort(6, an % 0x1_0000);
      WriteShort(8, ns % 0x1_0000);
      WriteShort(10, ar % 0x1_0000);
    }
  }

  /** What the getters read, bit by bit and byte by byte, from any header. */
  lemma GettersMeaning(header: DnsQueryHeader)
    requires header.Valid()
    ensures var h := header.buf[..];
      && header.Id() == BigEndian(h[..2])
      && header.QdCount() == BigEndian(h[4..6]) && header.AnCount() == BigEndian(h[6..8])
      && header.NsCount() == BigEndian(h[8..10]) && header.ArCount() == BigEndian(h[10..])
    ensures var flags, more := header.buf[2], header.buf[3];
      && (header.Qr() <==> flags / 0x80 == 1) && (header.Aa() <==> flags / 0x04 % 2 == 1)
      && (header.Tc() <==> flags / 0x02 % 2 == 1) && (header.Rd() <==> flags % 2 == 1)
      && (header.Ra() <==> more / 0x80 == 1)
      && header.Z() == more / 0x40 % 2 && header.AdCd() == more / 0x10 % 4
    ensures var code, codes := header.buf[2] / 0x08 % 0x10, [O_QUERY, O_IQUERY, O_STATUS];
      header.GetOpcode() == if code < 3 then codes[code] else O_RESERVED
    ensures var code := header.buf[3] % 0x10;
      var codes := [R_SUCCESS, R_FORMAT_ERROR, R_SERVER_FAILURE, R_NAME_ERROR, R_NOT_IMPLEMENTED, R_REFUSED];
      header.GetRcode() == if code < 6 then codes[code] else R_RESERVED
  {
    var h := header.buf[..];
    assert forall i :: 0 <= i < 12 ==> header.buf[i] == h[i];
    ShortParsesExactlyWhen(h, 0);
    ShortParsesExactlyWhen(h, 4);
    ShortParsesExactlyWhen(h, 6);
    ShortParsesExactlyWhen(h, 8);
    ShortParsesExactlyWhen(h, 10);
    hide BigEndian;
    assert h[0..2] == h[..2] && h[10..12] == h[10..];
  }

  lemma FlagByte(rd: bool)
    ensures WithBit(WithBit(WithBit(0, 0x80, true), 0x04, true), 0x01, rd) == 0x84 + if rd then 1 else 0
  {
  }

  /**
   Reading a composed reply header gives back the id, the flags and the code, an authoritative
   response to a standard query with no reserved bit set, and each count reduced modulo 2^16.
   */
  lemma ReplyHeaderReadsBack(header: DnsQueryHeader, id: uint16, rd: bool, rcode: Rcode, qd: nat, an: nat, ns: nat, ar: nat)
    requires header.Valid() && header.buf[..] == ReplyHeader(id, rd, rcode, qd, an, ns, ar)
    ensures header.Id() == id && header.Rd() == rd && header.GetRcode() == rcode
    ensures header.Qr() && header.Aa() && !header.Tc() && !header.Ra()
    ensures header.GetOpcode() == O_QUERY && header.Z() == 0 && header.AdCd() == 0
    ensures header.QdCount() == qd % 0x1_0000 && header.AnCount() == an % 0x1_0000
    ensures header.NsCount() == ns % 0x1_0000 && header.ArCount() == ar % 0x1_0000
  {
    var h := header.buf[..];
    assert forall i :: 0 <= i < 12 ==> header.buf[i] == h[i];
  }
}
