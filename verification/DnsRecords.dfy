/** Questions and resource records on the wire (RFC 1035 sections 4.1.2 and 4.1.3). */
module DnsRecords {
  import opened Wire
  import opened DnsNames

  const MAX_RDATA: nat := 1024

  datatype Question = Question(name: seq<byte>, qtype: uint16, qclass: uint16)

  datatype Record = Record(
    name: seq<byte>, rtype: uint16, rclass: uint16, ttl: uint32, rdlength: uint16, rdata: seq<byte>)

  // ---------------------------------------------------------------- writing

  function EncodeQuestion(q: Question): (r: seq<byte>) {
    EncodeName(q.name) + (EncodeShort(q.qtype) + EncodeShort(q.qclass))
  }

  /** write_rr takes the first rdlength bytes of rdata and refuses when there are fewer. */
  predicate WritableRecord(rr: Record) {
    Writable(rr.name) && rr.rdlength <= |rr.rdata|
  }

  function Data(rr: Record): (r: seq<byte>) {
    if rr.rdlength <= |rr.rdata| then rr.rdata[..rr.rdlength] else []
  }

  function EncodeRecord(rr: Record): (r: seq<byte>) {
    EncodeName(rr.name) + EncodeFields(rr)
  }

  // Where the fields stand (RFC 1035 sections 4.1.2 and 4.1.3).

  lemma QuestionLayout(q: Question)
    ensures var e, n := EncodeQuestion(q), |EncodeName(q.name)|;
      && |e| == n + 4 && e[..n] == EncodeName(q.name)
      && BigEndian(e[n..n + 2]) == q.qtype && BigEndian(e[n + 2..n + 4]) == q.qclass
  {
    hide EncodeName, EncodeShort;
    var e, n := EncodeQuestion(q), |EncodeName(q.name)|;
    ShortInNetworkOrder(q.qtype);
    ShortInNetworkOrder(q.qclass);
    assert e[n..n + 2] == EncodeShort(q.qtype) && e[n + 2..n + 4] == EncodeShort(q.qclass);
  }

  lemma RecordLayout(rr: Record)
    requires rr.rdlength <= |rr.rdata|
    ensures var e, n := EncodeRecord(rr), |EncodeName(rr.name)|;
      && |e| == n + 10 + rr.rdlength && e[..n] == EncodeName(rr.name)
      && BigEndian(e[n..n + 2]) == rr.rtype && BigEndian(e[n + 2..n + 4]) == rr.rclass
      && BigEndian(e[n + 4..n + 8]) == rr.ttl && BigEndian(e[n + 8..n + 10]) == rr.rdlength
      && e[n + 10..] == rr.rdata[..rr.rdlength]
  {
    var head, f := EncodeName(rr.name), EncodeFields(rr);
    ShortInNetworkOrder(rr.rtype);
    ShortInNetworkOrder(rr.rclass);
    UlongInNetworkOrder(rr.ttl);
    ShortInNetworkOrder(rr.rdlength);
    FieldsLayout(rr);
    hide EncodeName, EncodeFields, EncodeShort, EncodeUlong, BigEndian;
    SliceBehind(head, f, 0, 2);
    SliceBehind(head, f, 2, 4);
    SliceBehind(head, f, 4, 8);
    SliceBehind(head, f, 8, 10);
    SliceBehind(head, f, 10, |f|);
    assert (head + f)[..|head|] == head;
  }

  lemma FieldsLayout(rr: Record)
    requires rr.rdlength <= |rr.rdata|
    requires |EncodeShort(rr.rtype)| == |EncodeShort(rr.rclass)| == |EncodeShort(rr.rdlength)| == 2 && |EncodeUlong(rr.ttl)| == 4
    ensures var f := EncodeFields(rr);
      && |f| == 10 + rr.rdlength
      && f[..2] == EncodeShort(rr.rtype) && f[2..4] == EncodeShort(rr.rclass) && f[4..8] == EncodeUlong(rr.ttl)
      && f[8..10] == EncodeShort(rr.rdlength) && f[10..] == rr.rdata[..rr.rdlength]
  {
    hide EncodeShort, EncodeUlong;
    var a, b, c, d := EncodeShort(rr.rtype), EncodeShort(rr.rclass), EncodeUlong(rr.ttl), EncodeShort(rr.rdlength);
    assert EncodeFields(rr) == a + (b + (c + (d + rr.rdata[..rr.rdlength])));
  }

  method WriteTypeAndClass(q: Question, buf: array<byte>, pos: nat) returns (r: Result<nat>)
    requires pos <= buf.Length
    modifies buf
    ensures Written(old(buf[..]), buf[..], pos, EncodeShort(q.qtype) + EncodeShort(q.qclass), true, r)
  {
    hide Overwrite, EncodeShort, Written;
    ghost var s0 := buf[..];
    var a := WriteShort(q.qtype, buf, pos);
    ghost var s1 := buf[..];
    if a.Failure? {
      WrittenThen(s0, s1, s1, pos, EncodeShort(q.qtype), true, a, EncodeShort(q.qclass), true, Failure);
      return Failure;
    }
    WrittenEnd(s0, s1, pos, EncodeShort(q.qtype), true, a);
    r := WriteShort(q.qclass, buf, a.value);
    WrittenThen(s0, s1, buf[..], pos, EncodeShort(q.qtype), true, a, EncodeShort(q.qclass), true, r);
  }

  method WriteQuestion(q: Question, buf: array<byte>, pos: nat) returns (r: Result<nat>)
    requires pos <= buf.Length
    modifies buf
    ensures Written(old(buf[..]), buf[..], pos, EncodeQuestion(q), Writable(q.name), r)
  {
    hide Overwrite, EncodeName, Writable, EncodeShort, Written;
    ghost var s0, rest := buf[..], EncodeShort(q.qtype) + EncodeShort(q.qclass);
    var a := WriteName(q.name, buf, pos);
    ghost var s1 := buf[..];
    if a.Failure? {
      WrittenThen(s0, s1, s1, pos, EncodeName(q.name), Writable(q.name), a, rest, true, Failure);
      return Failure;
    }
    WrittenEnd(s0, s1, pos, EncodeName(q.name), Writable(q.name), a);
    r := WriteTypeAndClass(q, buf, a.value);
    WrittenThen(s0, s1, buf[..], pos, EncodeName(q.name), Writable(q.name), a, rest, true, r);
  }

  /** rdlength and rdata, the last two fields of a record. */
  method WriteData(rr: Record, buf: array<byte>, pos: nat) returns (r: Result<nat>)
    requires pos <= buf.Length
    modifies buf
    ensures Written(old(buf[..]), buf[..], pos, EncodeShort(rr.rdlength) + Data(rr), rr.rdlength <= |rr.rdata|, r)
  {
    hide Overwrite, EncodeShort;
    ghost var s0 := buf[..];
    var a := WriteShort(rr.rdlength, buf, pos);
    if a.Failure? || rr.rdlength > |rr.rdata| {
      return Failure;
    }
    ghost var s1 := buf[..];
    r := WriteBytes(rr.rdata[..rr.rdlength], buf, a.value);
    WrittenThen(s0, s1, buf[..], pos, EncodeShort(rr.rdlength), true, a, Data(rr), true, r);
  }

  function EncodeTtlAndData(rr: Record): (r: seq<byte>) {
    EncodeUlong(rr.ttl) + (EncodeShort(rr.rdlength) + Data(rr))
  }

  method WriteTtlAndData(rr: Record, buf: array<byte>, pos: nat) returns (r: Result<nat>)
    requires pos <= buf.Length
    modifies buf
    ensures Written(old(buf[..]), buf[..], pos, EncodeTtlAndData(rr), rr.rdlength <= |rr.rdata|, r)
  {
    hide Overwrite, EncodeShort, EncodeUlong, Data, Written;
    ghost var s0, data := buf[..], EncodeShort(rr.rdlength) + Data(rr);
    var a := WriteUlong(rr.ttl, buf, pos);
    ghost var s1 := buf[..];
    if a.Failure? {
      WrittenThen(s0, s1, s1, pos, EncodeUlong(rr.ttl), true, a, data, rr.rdlength <= |rr.rdata|, Failure);
      return Failure;
    }
    WrittenEnd(s0, s1, pos, EncodeUlong(rr.ttl), true, a);
    r := WriteData(rr, buf, a.value);
    WrittenThen(s0, s1, buf[..], pos, EncodeUlong(rr.ttl), true, a, data, rr.rdlength <= |rr.rdata|, r);
  }

  method WriteClassAndRest(rr: Record, buf: array<byte>, pos: nat) returns (r: Result<nat>)
    requires pos <= buf.Length
    modifies buf
    ensures Written(old(buf[..]), buf[..], pos, EncodeShort(rr.rclass) + EncodeTtlAndData(rr), rr.rdlength <= |rr.rdata|, r)
  {
    hide Overwrite, EncodeShort, EncodeTtlAndData, Written;
    ghost var s0 := buf[..];
    var a := WriteShort(rr.rclass, buf, pos);
    ghost var s1 := buf[..];
    if a.Failure? {
      WrittenThen(s0, s1, s1, pos, EncodeShort(rr.rclass), true, a, EncodeTtlAndData(rr), rr.rdlength <= |rr.rdata|, Failure);
      return Failure;
    }
    WrittenEnd(s0, s1, pos, EncodeShort(rr.rclass), true, a);
    r := WriteTtlAndData(rr, buf, a.value);
    WrittenThen(s0, s1, buf[..], pos, EncodeShort(rr.rclass), true, a, EncodeTtlAndData(rr), rr.rdlength <= |rr.rdata|, r);
  }

  /** Everything behind the name: rtype, then the rest. */
  method WriteFields(rr: Record, buf: array<byte>, pos: nat) returns (r: Result<nat>)
    requires pos <= buf.Length
    modifies buf
    ensures Written(old(buf[..]), buf[..], pos, EncodeFields(rr), rr.rdlength <= |rr.rdata|, r)
  {
    hide Overwrite, EncodeShort, EncodeTtlAndData, Written;
    ghost var s0, rest := buf[..], EncodeShort(rr.rclass) + EncodeTtlAndData(rr);
    var a := WriteShort(rr.rtype, buf, pos);
    ghost var s1 := buf[..];
    if a.Failure? {
      WrittenThen(s0, s1, s1, pos, EncodeShort(rr.rtype), true, a, rest, rr.rdlength <= |rr.rdata|, Failure);
      return Failure;
    }
    WrittenEnd(s0, s1, pos, EncodeShort(rr.rtype), true, a);
    r := WriteClassAndRest(rr, buf, a.value);
    WrittenThen(s0, s1, buf[..], pos, EncodeShort(rr.rtype), true, a, rest, rr.rdlength <= |rr.rdata|, r);
  }

  function EncodeFields(rr: Record): (r: seq<byte>) {
    EncodeShort(rr.rtype) + (EncodeShort(rr.rclass) + EncodeTtlAndData(rr))
  }

  method WriteRecord(rr: Record, buf: array<byte>, pos: nat) returns (r: Result<nat>)
    requires pos <= buf.Length
    modifies buf
    ensures Written(old(buf[..]), buf[..], pos, EncodeRecord(rr), WritableRecord(rr), r)
  {
    hide Overwrite, EncodeName, EncodeFields, Written;
    ghost var s0 := buf[..];
    var a := WriteName(rr.name, buf, pos);
    ghost var s1 := buf[..];
    if a.Failure? {
      WrittenThen(s0, s1, s1, pos, EncodeName(rr.name), Writable(rr.name), a, EncodeFields(rr), rr.rdlength <= |rr.rdata|, Failure);
      return Failure;
    }
    WrittenEnd(s0, s1, pos, EncodeName(rr.name), Writable(rr.name), a);
    r := WriteFields(rr, buf, a.value);
    WrittenThen(s0, s1, buf[..], pos, EncodeName(rr.name), Writable(rr.name), a, EncodeFields(rr), rr.rdlength <= |rr.rdata|, r);
  }

  // ---------------------------------------------------------------- reading

  function ParseQuestionAt(buf: seq<byte>, pos: nat): (r: Result<(Question, nat)>)
    requires pos <= |buf|
    ensures r.Success? ==> pos < r.value.1 <= |buf|
  {
    var name :- ParseNameAt(buf, pos);
    var qtype :- ParseShort(buf, name.1);
    var qclass :- ParseShort(buf, qtype.1);
    Success((Question(name.0, qtype.0, qclass.0), qclass.1))
  }

  function ParseRecordAt(buf: seq<byte>, pos: nat): (r: Result<(Record, nat)>)
    requires pos <= |buf|
    ensures r.Success? ==> pos < r.value.1 <= |buf|
  {
    var name :- ParseNameAt(buf, pos);
    var rtype :- ParseShort(buf, name.1);
    var rclass :- ParseShort(buf, rtype.1);
    var ttl :- ParseUlong(buf, rclass.1);
    var rdlength :- ParseShort(buf, ttl.1);
    if rdlength.0 > MAX_RDATA || |buf| - rdlength.1 < rdlength.0 then Failure else
      var end := rdlength.1 + rdlength.0;
      Success((Record(name.0, rtype.0, rclass.0, ttl.0, rdlength.0, buf[rdlength.1..end]), end))
  }

  method ParseQuestion(buf: seq<byte>, pos: nat) returns (r: Result<(Question, nat)>)
    requires pos <= |buf|
    ensures r == ParseQuestionAt(buf, pos)
  {
    var name :- ParseName(buf, pos);
    var qtype :- ParseShort(buf, name.1);
    var qclass :- ParseShort(buf, qtype.1);
    return Success((Question(name.0, qtype.0, qclass.0), qclass.1));
  }

  method ParseRecord(buf: seq<byte>, pos: nat) returns (r: Result<(Record, nat)>)
    requires pos <= |buf|
    ensures r == ParseRecordAt(buf, pos)
  {
    var name :- ParseName(buf, pos);
    var rtype :- ParseShort(buf, name.1);
    var rclass :- ParseShort(buf, rtype.1);
    var ttl :- ParseUlong(buf, rclass.1);
    var rdlength :- ParseShort(buf, ttl.1);
    if rdlength.0 > MAX_RDATA || |buf| - rdlength.1 < rdlength.0 {
      return Failure;
    }
    var end := rdlength.1 + rdlength.0;
    return Success((Record(name.0, rtype.0, rclass.0, ttl.0, rdlength.0, buf[rdlength.1..end]), end));
  }

  /** Which bytes read as a question, and as what. */
  lemma QuestionParsesExactlyWhen(buf: seq<byte>, pos: nat)
    requires pos <= |buf|
    ensures var name, r := ParseNameAt(buf, pos), ParseQuestionAt(buf, pos);
      && (r.Success? <==> name.Success? && name.value.1 + 4 <= |buf|)
      && (r.Success? ==> var n := name.value.1;
            && r.value.1 == n + 4 && r.value.0.name == name.value.0
            && r.value.0.qtype == BigEndian(buf[n..n + 2]) && r.value.0.qclass == BigEndian(buf[n + 2..n + 4]))
  {
    hide ParseNameAt, ParseShort, BigEndian;
    var name := ParseNameAt(buf, pos);
    if name.Success? {
      ShortParsesExactlyWhen(buf, name.value.1);
      if name.value.1 + 2 <= |buf| {
        ShortParsesExactlyWhen(buf, name.value.1 + 2);
      }
    }
  }

  /** Which bytes read as a record, and as what. */
  lemma RecordParsesExactlyWhen(buf: seq<byte>, pos: nat)
    requires pos <= |buf|
    ensures var name, r := ParseNameAt(buf, pos), ParseRecordAt(buf, pos);
      && (r.Success? <==>
            && name.Success? && name.value.1 + 10 <= |buf|
            && var n, len := name.value.1, BigEndian(buf[name.value.1 + 8..name.value.1 + 10]);
            len <= 1024 && n + 10 + len <= |buf|)
      && (r.Success? ==> var n, rr := name.value.1, r.value.0;
            && r.value.1 == n + 10 + rr.rdlength <= |buf| && rr.name == name.value.0
            && rr.rtype == BigEndian(buf[n..n + 2]) && rr.rclass == BigEndian(buf[n + 2..n + 4])
            && rr.ttl == BigEndian(buf[n + 4..n + 8]) && rr.rdlength == BigEndian(buf[n + 8..n + 10])
            && rr.rdata == buf[n + 10..n + 10 + rr.rdlength])
  {
    hide ParseNameAt, ParseShort, ParseUlong, BigEndian;
    var name := ParseNameAt(buf, pos);
    if name.Success? {
      var n := name.value.1;
      ShortParsesExactlyWhen(buf, n);
      if n + 2 <= |buf| {
        ShortParsesExactlyWhen(buf, n + 2);
      }
      if n + 4 <= |buf| {
        UlongParsesExactlyWhen(buf, n + 4);
      }
      if n + 8 <= |buf| {
        ShortParsesExactlyWhen(buf, n + 8);
      }
    }
  }

  // What stands behind a question or a record does not matter for reading it.

  lemma QuestionIgnoresRest(buf: seq<byte>, pos: nat, rest: seq<byte>)
    requires pos <= |buf| && ParseQuestionAt(buf, pos).Success?
    ensures ParseQuestionAt(buf + rest, pos) == ParseQuestionAt(buf, pos)
  {
    hide NameAt, BigEndian;
    NameIgnoresRest(buf, pos, 0, rest);
    QuestionParsesExactlyWhen(buf, pos);
    QuestionParsesExactlyWhen(buf + rest, pos);
    hide ParseQuestionAt, ParseNameAt;
    var n := ParseNameAt(buf, pos).value.1;
    assert (buf + rest)[n..n + 2] == buf[n..n + 2] && (buf + rest)[n + 2..n + 4] == buf[n + 2..n + 4];
  }

  lemma RecordIgnoresRest(buf: seq<byte>, pos: nat, rest: seq<byte>)
    requires pos <= |buf| && ParseRecordAt(buf, pos).Success?
    ensures ParseRecordAt(buf + rest, pos) == ParseRecordAt(buf, pos)
  {
    hide NameAt, ParseShort, ParseUlong;
    NameIgnoresRest(buf, pos, 0, rest);
    var n := ParseNameAt(buf, pos).value.1;
    hide ParseNameAt;
    IntegersIgnoreRest(buf, n, rest);
    IntegersIgnoreRest(buf, n + 2, rest);
    IntegersIgnoreRest(buf, n + 4, rest);
    IntegersIgnoreRest(buf, n + 8, rest);
    var end := ParseRecordAt(buf, pos).value.1;
    assert (buf + rest)[n + 10..end] == buf[n + 10..end];
  }

  // ---------------------------------------------------------------- both together

  /** What a question or record is after a trip over the wire. */
  function CanonicalQuestion(q: Question): (r: Question) {
    q.(name := Canonical(q.name))
  }

  function CanonicalRecord(rr: Record): (r: Record) {
    rr.(name := Canonical(rr.name), rdata := Data(rr))
  }

  lemma QuestionRoundTrip(buf: seq<byte>, pos: nat, q: Question)
    requires pos <= |buf| && Writable(q.name) && At(buf, pos, EncodeQuestion(q))
    ensures ParseQuestionAt(buf, pos) == Success((CanonicalQuestion(q), pos + |EncodeQuestion(q)|))
  {
    hide At, EncodeName, EncodeShort, ParseNameAt, ParseShort, Canonical;
    var tail := EncodeShort(q.qtype) + EncodeShort(q.qclass);
    AtConcat(buf, pos, EncodeName(q.name), tail);
    AtSlice(buf, pos, EncodeName(q.name));
    NameRoundTrip(buf, pos, q.name);
    var p := pos + |EncodeName(q.name)|;
    ShortThen(buf, p, q.qtype, EncodeShort(q.qclass));
    ShortThen(buf, p + 2, q.qclass, []);
    assert EncodeShort(q.qclass) + [] == EncodeShort(q.qclass);
    assert |EncodeShort(q.qtype)| == 2 && |EncodeShort(q.qclass)| == 2 by {
      ShortLength(q.qtype);
      ShortLength(q.qclass);
    }
  }

  lemma ShortLength(v: uint16)
    ensures |EncodeShort(v)| == 2
  {
  }

  lemma UlongLength(v: uint32)
    ensures |EncodeUlong(v)| == 4
  {
  }

  lemma ShortThen(buf: seq<byte>, pos: nat, v: uint16, rest: seq<byte>)
    requires At(buf, pos, EncodeShort(v) + rest)
    ensures pos + 2 <= |buf|
    ensures ParseShort(buf, pos) == Success((v, pos + 2))
    ensures At(buf, pos + 2, rest)
  {
    AtConcat(buf, pos, EncodeShort(v), rest);
    ShortRoundTrip(buf, pos, v);
  }

  lemma UlongThen(buf: seq<byte>, pos: nat, v: uint32, rest: seq<byte>)
    requires At(buf, pos, EncodeUlong(v) + rest)
    ensures pos + 4 <= |buf|
    ensures ParseUlong(buf, pos) == Success((v, pos + 4))
    ensures At(buf, pos + 4, rest)
  {
    AtConcat(buf, pos, EncodeUlong(v), rest);
    UlongRoundTrip(buf, pos, v);
  }

  /** A written record is read back, cut to rdlength, unless it is longer than the reader allows. */
  lemma RecordRoundTrip(buf: seq<byte>, pos: nat, rr: Record)
    requires pos <= |buf| && WritableRecord(rr) && At(buf, pos, EncodeRecord(rr))
    ensures ParseRecordAt(buf, pos) ==
      if rr.rdlength <= MAX_RDATA then Success((CanonicalRecord(rr), pos + |EncodeRecord(rr)|)) else Failure
  {
    hide At, EncodeName, EncodeShort, EncodeUlong, ParseNameAt, ParseShort, ParseUlong, Canonical, Writable;
    var d := Data(rr);
    var c := EncodeShort(rr.rdlength) + d;
    var b := EncodeUlong(rr.ttl) + c;
    var a := EncodeShort(rr.rclass) + b;
    var tail := EncodeShort(rr.rtype) + a;
    AtConcat(buf, pos, EncodeName(rr.name), tail);
    AtSlice(buf, pos, EncodeName(rr.name));
    NameRoundTrip(buf, pos, rr.name);
    var p := pos + |EncodeName(rr.name)|;
    ShortThen(buf, p, rr.rtype, a);
    ShortThen(buf, p + 2, rr.rclass, b);
    UlongThen(buf, p + 4, rr.ttl, c);
    ShortThen(buf, p + 8, rr.rdlength, d);
    AtSlice(buf, p + 10, d);
    ShortLength(rr.rtype);
    ShortLength(rr.rclass);
    UlongLength(rr.ttl);
    ShortLength(rr.rdlength);
  }
}
