/**
 Whole DNS messages: composing a reply into a buffer and parsing a message out of one. The two are
 inverse up to the canonical form of names, for every message that fits.
 */
module DnsMessages {
  import opened Wire
  import opened DnsNames
  import opened DnsRecords
  import opened DnsHeader

  /** The contents of a dnsquery object. */
  datatype Message = Message(
    id: uint16, rd: bool, rcode: Rcode,
    questions: seq<Question>, answers: seq<Record>, authorities: seq<Record>, additionals: seq<Record>)

  // ---------------------------------------------------------------- composing

  function EncodeQuestions(qs: seq<Question>): (r: seq<byte>) {
    if qs == [] then [] else EncodeQuestion(qs[0]) + EncodeQuestions(qs[1..])
  }

  function EncodeRecords(rrs: seq<Record>): (r: seq<byte>) {
    if rrs == [] then [] else EncodeRecord(rrs[0]) + EncodeRecords(rrs[1..])
  }

  function EncodeBody(m: Message): (r: seq<byte>) {
    EncodeQuestions(m.questions)
    + (EncodeRecords(m.answers) + (EncodeRecords(m.authorities) + EncodeRecords(m.additionals)))
  }

  predicate WritableQuestions(qs: seq<Question>) {
    forall i :: 0 <= i < |qs| ==> Writable(qs[i].name)
  }

  predicate WritableRecords(rrs: seq<Record>) {
    forall i :: 0 <= i < |rrs| ==> WritableRecord(rrs[i])
  }

  predicate WritableMessage(m: Message) {
    && WritableQuestions(m.questions)
    && WritableRecords(m.answers) && WritableRecords(m.authorities) && WritableRecords(m.additionals)
  }

  method WriteQuestions(qs: seq<Question>, buf: array<byte>, pos: nat) returns (r: Result<nat>)
    requires pos <= buf.Length
    modifies buf
    ensures Written(old(buf[..]), buf[..], pos, EncodeQuestions(qs), WritableQuestions(qs), r)
  {
    ghost var before := buf[..];
    assert Overwrite(before, pos, EncodeQuestions(qs[..0])) == before;
    hide EncodeQuestion, EncodeQuestions, Overwrite;
    var i, at := 0, pos;
    while i < |qs|
      invariant 0 <= i <= |qs|
      invariant Written(before, buf[..], pos, EncodeQuestions(qs[..i]), WritableQuestions(qs[..i]), Success(at))
    {
      ghost var middle := buf[..];
      var next := WriteQuestion(qs[i], buf, at);
      OneQuestionMore(qs, i, before, middle, buf[..], pos, at, next);
      if next.Failure? {
        return Failure;
      }
      at := next.value;
      i := i + 1;
    }
    assert qs[..i] == qs;
    return Success(at);
  }

  method WriteRecords(rrs: seq<Record>, buf: array<byte>, pos: nat) returns (r: Result<nat>)
    requires pos <= buf.Length
    modifies buf
    ensures Written(old(buf[..]), buf[..], pos, EncodeRecords(rrs), WritableRecords(rrs), r)
  {
    ghost var before := buf[..];
    assert Overwrite(before, pos, EncodeRecords(rrs[..0])) == before;
    hide EncodeRecord, EncodeRecords, Overwrite, WritableRecord;
    var i, at := 0, pos;
    while i < |rrs|
      invariant 0 <= i <= |rrs|
      invariant Written(before, buf[..], pos, EncodeRecords(rrs[..i]), WritableRecords(rrs[..i]), Success(at))
    {
      ghost var middle := buf[..];
      var next := WriteRecord(rrs[i], buf, at);
      OneRecordMore(rrs, i, before, middle, buf[..], pos, at, next);
      if next.Failure? {
        return Failure;
      }
      at := next.value;
      i := i + 1;
    }
    assert rrs[..i] == rrs;
    return Success(at);
  }

  lemma WritableQuestionsSnoc(qs: seq<Question>, i: nat)
    requires i < |qs|
    ensures WritableQuestions(qs[..i + 1]) <==> WritableQuestions(qs[..i]) && Writable(qs[i].name)
    ensures WritableQuestions(qs) ==> WritableQuestions(qs[..i + 1])
  {
    hide Writable;
  }

  lemma OneQuestionMore(qs: seq<Question>, i: nat, before: seq<byte>, middle: seq<byte>, after: seq<byte>,
                        pos: nat, at: nat, next: Result<nat>)
    requires i < |qs|
    requires Written(before, middle, pos, EncodeQuestions(qs[..i]), WritableQuestions(qs[..i]), Success(at))
    requires Written(middle, after, at, EncodeQuestion(qs[i]), Writable(qs[i].name), next)
    ensures Written(before, after, pos, EncodeQuestions(qs[..i + 1]), WritableQuestions(qs[..i + 1]), next)
    ensures next.Failure? ==> Written(before, after, pos, EncodeQuestions(qs), WritableQuestions(qs), Failure)
  {
    hide EncodeQuestion, EncodeQuestions, WritableQuestions, Writable, Written;
    WritableQuestionsSnoc(qs, i);
    EncodeQuestionsSnoc(qs, i);
    EncodeQuestionsPrefix(qs, i + 1);
    WrittenStep(before, middle, after, pos, at, EncodeQuestions(qs[..i]), WritableQuestions(qs[..i]),
                EncodeQuestion(qs[i]), Writable(qs[i].name), next,
                EncodeQuestions(qs[..i + 1]), WritableQuestions(qs[..i + 1]), EncodeQuestions(qs), WritableQuestions(qs));
  }

  lemma WritableRecordsSnoc(rrs: seq<Record>, i: nat)
    requires i < |rrs|
    ensures WritableRecords(rrs[..i + 1]) <==> WritableRecords(rrs[..i]) && WritableRecord(rrs[i])
    ensures WritableRecords(rrs) ==> WritableRecords(rrs[..i + 1])
  {
    hide WritableRecord;
  }

  lemma OneRecordMore(rrs: seq<Record>, i: nat, before: seq<byte>, middle: seq<byte>, after: seq<byte>,
                        pos: nat, at: nat, next: Result<nat>)
    requires i < |rrs|
    requires Written(before, middle, pos, EncodeRecords(rrs[..i]), WritableRecords(rrs[..i]), Success(at))
    requires Written(middle, after, at, EncodeRecord(rrs[i]), WritableRecord(rrs[i]), next)
    ensures Written(before, after, pos, EncodeRecords(rrs[..i + 1]), WritableRecords(rrs[..i + 1]), next)
    ensures next.Failure? ==> Written(before, after, pos, EncodeRecords(rrs), WritableRecords(rrs), Failure)
  {
    hide EncodeRecord, EncodeRecords, WritableRecords, WritableRecord, Written;
    WritableRecordsSnoc(rrs, i);
    EncodeRecordsSnoc(rrs, i);
    EncodeRecordsPrefix(rrs, i + 1);
    WrittenStep(before, middle, after, pos, at, EncodeRecords(rrs[..i]), WritableRecords(rrs[..i]),
                EncodeRecord(rrs[i]), WritableRecord(rrs[i]), next,
                EncodeRecords(rrs[..i + 1]), WritableRecords(rrs[..i + 1]), EncodeRecords(rrs), WritableRecords(rrs));
  }

  lemma {:induction false} EncodeQuestionsSnoc(qs: seq<Question>, i: nat)
    requires i < |qs|
    ensures EncodeQuestions(qs[..i + 1]) == EncodeQuestions(qs[..i]) + EncodeQuestion(qs[i])
    decreases i
  {
    hide EncodeQuestion;
    if i == 0 {
      assert qs[..1] == [qs[0]] && qs[..0] == [];
    } else {
      EncodeQuestionsSnoc(qs[1..], i - 1);
      assert qs[1..][..i] == qs[..i + 1][1..] && qs[1..][..i - 1] == qs[..i][1..];
    }
  }

  lemma {:induction false} EncodeQuestionsPrefix(qs: seq<Question>, i: nat)
    requires i <= |qs|
    ensures |EncodeQuestions(qs[..i])| <= |EncodeQuestions(qs)|
    decreases |qs| - i
  {
    hide EncodeQuestion;
    if i == |qs| {
      assert qs[..i] == qs;
    } else {
      EncodeQuestionsSnoc(qs, i);
      EncodeQuestionsPrefix(qs, i + 1);
    }
  }

  lemma {:induction false} EncodeRecordsSnoc(rrs: seq<Record>, i: nat)
    requires i < |rrs|
    ensures EncodeRecords(rrs[..i + 1]) == EncodeRecords(rrs[..i]) + EncodeRecord(rrs[i])
    decreases i
  {
    hide EncodeRecord;
    if i == 0 {
      assert rrs[..1] == [rrs[0]] && rrs[..0] == [];
    } else {
      EncodeRecordsSnoc(rrs[1..], i - 1);
      assert rrs[1..][..i] == rrs[..i + 1][1..] && rrs[1..][..i - 1] == rrs[..i][1..];
    }
  }

  lemma {:induction false} EncodeRecordsPrefix(rrs: seq<Record>, i: nat)
    requires i <= |rrs|
    ensures |EncodeRecords(rrs[..i])| <= |EncodeRecords(rrs)|
    decreases |rrs| - i
  {
    hide EncodeRecord;
    if i == |rrs| {
      assert rrs[..i] == rrs;
    } else {
      EncodeRecordsSnoc(rrs, i);
      EncodeRecordsPrefix(rrs, i + 1);
    }
  }

  /** compose_dns_response: succeeds exactly when everything may be written and fits. */
  method ComposeDnsResponse(m: Message, buf: array<byte>) returns (r: Result<nat>)
    modifies buf
    ensures Written(old(buf[..]), buf[..], 0, EncodeBody(m), WritableMessage(m), r)
  {
    hide EncodeQuestions, EncodeRecords, Overwrite, WritableQuestions, WritableRecords;
    ghost var s0 := buf[..];
    var a := WriteQuestions(m.questions, buf, 0);
    if a.Failure? {
      return Failure;
    }
    ghost var s1 := buf[..];
    var b := WriteRecords(m.answers, buf, a.value);
    if b.Failure? {
      return Failure;
    }
    ghost var s2 := buf[..];
    var c := WriteRecords(m.authorities, buf, b.value);
    if c.Failure? {
      return Failure;
    }
    ghost var s3 := buf[..];
    r := WriteRecords(m.additionals, buf, c.value);
    ghost var okC, okB := WritableRecords(m.additionals), WritableRecords(m.authorities);
    WrittenThen(s2, s3, buf[..], b.value, EncodeRecords(m.authorities), okB, c, EncodeRecords(m.additionals), okC, r);
    WrittenThen(s1, s2, buf[..], a.value, EncodeRecords(m.answers), WritableRecords(m.answers), b,
                EncodeRecords(m.authorities) + EncodeRecords(m.additionals), okB && okC, r);
    WrittenThen(s0, s1, buf[..], 0, EncodeQuestions(m.questions), WritableQuestions(m.questions), a,
                EncodeRecords(m.answers) + (EncodeRecords(m.authorities) + EncodeRecords(m.additionals)),
                WritableRecords(m.answers) && (okB && okC), r);
  }

  // ---------------------------------------------------------------- parsing

  function ParseQuestions(buf: seq<byte>, pos: nat, n: nat): (r: Result<(seq<Question>, nat)>)
    requires pos <= |buf|
    ensures r.Success? ==> r.value.1 <= |buf| && |r.value.0| == n
    decreases n
  {
    if n == 0 then Success(([], pos)) else
      var first :- ParseQuestionAt(buf, pos);
      var rest :- ParseQuestions(buf, first.1, n - 1);
      Success(([first.0] + rest.0, rest.1))
  }

  function ParseRecords(buf: seq<byte>, pos: nat, n: nat): (r: Result<(seq<Record>, nat)>)
    requires pos <= |buf|
    ensures r.Success? ==> r.value.1 <= |buf| && |r.value.0| == n
    decreases n
  {
    if n == 0 then Success(([], pos)) else
      var first :- ParseRecordAt(buf, pos);
      var rest :- ParseRecords(buf, first.1, n - 1);
      Success(([first.0] + rest.0, rest.1))
  }

  /** The sections of a message body; additional records are read and dropped, and nothing may follow. */
  function ParseBody(buf: seq<byte>, qd: nat, an: nat, ns: nat, ar: nat)
    : (r: Result<(seq<Question>, seq<Record>, seq<Record>)>)
  {
    var questions :- ParseQuestions(buf, 0, qd);
    var answers :- ParseRecords(buf, questions.1, an);
    var authorities :- ParseRecords(buf, answers.1, ns);
    var additionals :- ParseRecords(buf, authorities.1, ar);
    if additionals.1 != |buf| then Failure else Success((questions.0, answers.0, authorities.0))
  }

  lemma {:induction false} QuestionsIgnoreRest(buf: seq<byte>, pos: nat, n: nat, rest: seq<byte>)
    requires pos <= |buf| && ParseQuestions(buf, pos, n).Success?
    ensures ParseQuestions(buf + rest, pos, n) == ParseQuestions(buf, pos, n)
    decreases n
  {
    hide ParseQuestionAt;
    if n > 0 {
      QuestionIgnoresRest(buf, pos, rest);
      QuestionsIgnoreRest(buf, ParseQuestionAt(buf, pos).value.1, n - 1, rest);
    }
  }

  lemma {:induction false} RecordsIgnoreRest(buf: seq<byte>, pos: nat, n: nat, rest: seq<byte>)
    requires pos <= |buf| && ParseRecords(buf, pos, n).Success?
    ensures ParseRecords(buf + rest, pos, n) == ParseRecords(buf, pos, n)
    decreases n
  {
    hide ParseRecordAt;
    if n > 0 {
      RecordIgnoresRest(buf, pos, rest);
      RecordsIgnoreRest(buf, ParseRecordAt(buf, pos).value.1, n - 1, rest);
    }
  }

  /** A message that parses does not parse any more with anything behind it. */
  lemma TrailingBytesAreRefused(buf: seq<byte>, rest: seq<byte>, qd: nat, an: nat, ns: nat, ar: nat)
    ensures ParseBody(buf, qd, an, ns, ar).Success? && rest != [] ==> ParseBody(buf + rest, qd, an, ns, ar) == Failure
  {
    hide ParseQuestions, ParseRecords;
    if ParseBody(buf, qd, an, ns, ar).Success? {
      QuestionsIgnoreRest(buf, 0, qd, rest);
      var questions := ParseQuestions(buf, 0, qd).value;
      RecordsIgnoreRest(buf, questions.1, an, rest);
      var answers := ParseRecords(buf, questions.1, an).value;
      RecordsIgnoreRest(buf, answers.1, ns, rest);
      var authorities := ParseRecords(buf, answers.1, ns).value;
      RecordsIgnoreRest(buf, authorities.1, ar, rest);
    }
  }

  /** The sections stand in the order questions, answers, authorities, additionals, each entry behind the one before. */
  lemma BodyLayout(m: Message)
    ensures var e := EncodeBody(m);
      var a, b, c := |EncodeQuestions(m.questions)|, |EncodeRecords(m.answers)|, |EncodeRecords(m.authorities)|;
      && |e| == a + b + c + |EncodeRecords(m.additionals)|
      && e[..a] == EncodeQuestions(m.questions) && e[a..a + b] == EncodeRecords(m.answers)
      && e[a + b..a + b + c] == EncodeRecords(m.authorities) && e[a + b + c..] == EncodeRecords(m.additionals)
  {
    hide EncodeQuestions, EncodeRecords;
  }

  class DnsQuery {
    var id: uint16
    var rd: bool
    var rcode: Rcode
    var questions: seq<Question>
    var answers: seq<Record>
    var authorities: seq<Record>
    var additionals: seq<Record>

    constructor ()
      ensures Contents() == Message(0, false, R_SUCCESS, [], [], [], [])
    {
      id, rd, rcode := 0, false, R_SUCCESS;
      questions, answers, authorities, additionals := [], [], [], [];
    }

    function Contents(): Message
      reads this
    {
      Message(id, rd, rcode, questions, answers, authorities, additionals)
    }
  }

  /** Reads n records behind one another. */
  method ReadRecords(buf: seq<byte>, pos: nat, n: nat) returns (r: Result<(seq<Record>, nat)>)
    requires pos <= |buf|
    ensures r == ParseRecords(buf, pos, n)
  {
    var done: seq<Record>, at: nat, i := [], pos, 0;
    hide ParseRecordAt;
    AfterNoRecords(ParseRecords(buf, pos, n));
    while i < n
      invariant 0 <= i <= n && at <= |buf|
      invariant ParseRecords(buf, pos, n) == AfterRecords(done, ParseRecords(buf, at, n - i))
    {
      var next := ParseRecord(buf, at);
      if next.Failure? {
        return Failure;
      }
      RecordsStep(done, buf, at, n - i);
      done := done + [next.value.0];
      at := next.value.1;
      i := i + 1;
    }
    assert done + [] == done;
    return Success((done, at));
  }

  method ReadQuestions(buf: seq<byte>, pos: nat, n: nat) returns (r: Result<(seq<Question>, nat)>)
    requires pos <= |buf|
    ensures r == ParseQuestions(buf, pos, n)
  {
    var done: seq<Question>, at: nat, i := [], pos, 0;
    hide ParseQuestionAt;
    AfterNoQuestions(ParseQuestions(buf, pos, n));
    while i < n
      invariant 0 <= i <= n && at <= |buf|
      invariant ParseQuestions(buf, pos, n) == AfterQuestions(done, ParseQuestions(buf, at, n - i))
    {
      var next := ParseQuestion(buf, at);
      if next.Failure? {
        return Failure;
      }
      QuestionsStep(done, buf, at, n - i);
      done := done + [next.value.0];
      at := next.value.1;
      i := i + 1;
    }
    assert done + [] == done;
    return Success((done, at));
  }

  ghost function AfterRecords(done: seq<Record>, r: Result<(seq<Record>, nat)>): Result<(seq<Record>, nat)> {
    if r.Failure? then Failure else Success((done + r.value.0, r.value.1))
  }

  ghost function AfterQuestions(done: seq<Question>, r: Result<(seq<Question>, nat)>): Result<(seq<Question>, nat)> {
    if r.Failure? then Failure else Success((done + r.value.0, r.value.1))
  }

  lemma AfterNoRecords(r: Result<(seq<Record>, nat)>)
    ensures AfterRecords([], r) == r
  {
    if r.Success? {
      assert [] + r.value.0 == r.value.0;
    }
  }

  lemma AfterNoQuestions(r: Result<(seq<Question>, nat)>)
    ensures AfterQuestions([], r) == r
  {
    if r.Success? {
      assert [] + r.value.0 == r.value.0;
    }
  }

  lemma RecordsStep(done: seq<Record>, buf: seq<byte>, pos: nat, n: nat)
    requires pos <= |buf| && n > 0 && ParseRecordAt(buf, pos).Success?
    ensures var first := ParseRecordAt(buf, pos).value;
      AfterRecords(done, ParseRecords(buf, pos, n)) == AfterRecords(done + [first.0], ParseRecords(buf, first.1, n - 1))
  {
    var first := ParseRecordAt(buf, pos).value;
    var rest := ParseRecords(buf, first.1, n - 1);
    if rest.Success? {
      assert done + ([first.0] + rest.value.0) == done + [first.0] + rest.value.0;
    }
  }

  lemma QuestionsStep(done: seq<Question>, buf: seq<byte>, pos: nat, n: nat)
    requires pos <= |buf| && n > 0 && ParseQuestionAt(buf, pos).Success?
    ensures var first := ParseQuestionAt(buf, pos).value;
      AfterQuestions(done, ParseQuestions(buf, pos, n)) == AfterQuestions(done + [first.0], ParseQuestions(buf, first.1, n - 1))
  {
    var first := ParseQuestionAt(buf, pos).value;
    var rest := ParseQuestions(buf, first.1, n - 1);
    if rest.Success? {
      assert done + ([first.0] + rest.value.0) == done + [first.0] + rest.value.0;
    }
  }

  /** parse_dns_query: false stands for a parse_error, after which the query is thrown away. */
  method ParseDnsQuery(query: DnsQuery, header: DnsQueryHeader, buf: seq<byte>) returns (ok: bool)
    requires header.Valid()
    modifies query
    ensures var body := ParseBody(buf, header.QdCount(), header.AnCount(), header.NsCount(), header.ArCount());
      && (ok <==> body.Success?)
      && (ok ==> query.Contents() == old(query.Contents()).(
            id := header.Id(), rd := header.Rd(),
            questions := old(query.questions) + body.value.0,
            answers := old(query.answers) + body.value.1,
            authorities := old(query.authorities) + body.value.2))
  {
    query.id := header.Id();
    query.rd := header.Rd();
    var questions := ReadQuestions(buf, 0, header.QdCount());
    if questions.Failure? {
      return false;
    }
    query.questions := query.questions + questions.value.0;
    var answers := ReadRecords(buf, questions.value.1, header.AnCount());
    if answers.Failure? {
      return false;
    }
    query.answers := query.answers + answers.value.0;
    var authorities := ReadRecords(buf, answers.value.1, header.NsCount());
    if authorities.Failure? {
      return false;
    }
    query.authorities := query.authorities + authorities.value.0;
    var additionals := ReadRecords(buf, authorities.value.1, header.ArCount());
    if additionals.Failure? {
      return false;
    }
    return additionals.value.1 == |buf|;
  }

  // ---------------------------------------------------------------- both together

  function CanonicalQuestions(qs: seq<Question>): (r: seq<Question>) {
    if qs == [] then [] else [CanonicalQuestion(qs[0])] + CanonicalQuestions(qs[1..])
  }

  function CanonicalRecords(rrs: seq<Record>): (r: seq<Record>) {
    if rrs == [] then [] else [CanonicalRecord(rrs[0])] + CanonicalRecords(rrs[1..])
  }

  ghost predicate ReadableRecords(rrs: seq<Record>) {
    forall i :: 0 <= i < |rrs| ==> rrs[i].rdlength <= MAX_RDATA
  }

  /** Exactly the messages whose reply the parser accepts. */
  ghost predicate ReadableMessage(m: Message) {
    ReadableRecords(m.answers) && ReadableRecords(m.authorities) && ReadableRecords(m.additionals)
  }

  lemma {:induction false} QuestionsRoundTrip(buf: seq<byte>, pos: nat, qs: seq<Question>)
    requires pos <= |buf| && WritableQuestions(qs) && At(buf, pos, EncodeQuestions(qs))
    ensures ParseQuestions(buf, pos, |qs|) == Success((CanonicalQuestions(qs), pos + |EncodeQuestions(qs)|))
    decreases |qs|
  {
    hide At, EncodeQuestion, ParseQuestionAt, CanonicalQuestion, Writable;
    if qs != [] {
      AtConcat(buf, pos, EncodeQuestion(qs[0]), EncodeQuestions(qs[1..]));
      AtSlice(buf, pos, EncodeQuestion(qs[0]));
      QuestionRoundTrip(buf, pos, qs[0]);
      QuestionsRoundTrip(buf, pos + |EncodeQuestion(qs[0])|, qs[1..]);
    }
  }

  lemma {:induction false} RecordsRoundTrip(buf: seq<byte>, pos: nat, rrs: seq<Record>)
    requires pos <= |buf| && WritableRecords(rrs) && At(buf, pos, EncodeRecords(rrs))
    ensures ParseRecords(buf, pos, |rrs|) ==
      if ReadableRecords(rrs) then Success((CanonicalRecords(rrs), pos + |EncodeRecords(rrs)|)) else Failure
    decreases |rrs|
  {
    hide At, EncodeRecord, ParseRecordAt, CanonicalRecord, WritableRecord;
    if rrs != [] {
      AtConcat(buf, pos, EncodeRecord(rrs[0]), EncodeRecords(rrs[1..]));
      AtSlice(buf, pos, EncodeRecord(rrs[0]));
      RecordRoundTrip(buf, pos, rrs[0]);
      RecordsRoundTrip(buf, pos + |EncodeRecord(rrs[0])|, rrs[1..]);
      assert ReadableRecords(rrs) <==> rrs[0].rdlength <= MAX_RDATA && ReadableRecords(rrs[1..]);
    }
  }

  /**
   A composed body parses back, exactly to its end, into the canonical questions, answers and
   authorities; it fails to parse exactly when some record is longer than the reader allows.
   */
  lemma BodyRoundTrip(m: Message)
    requires WritableMessage(m)
    ensures ParseBody(EncodeBody(m), |m.questions|, |m.answers|, |m.authorities|, |m.additionals|) ==
      if ReadableMessage(m)
      then Success((CanonicalQuestions(m.questions), CanonicalRecords(m.answers), CanonicalRecords(m.authorities)))
      else Failure
  {
    hide At, EncodeQuestions, EncodeRecords, ParseQuestions, ParseRecords, CanonicalQuestions, CanonicalRecords;
    hide WritableQuestions, WritableRecords;
    var buf := EncodeBody(m);
    var q, a, b, c := EncodeQuestions(m.questions), EncodeRecords(m.answers), EncodeRecords(m.authorities), EncodeRecords(m.additionals);
    WholeIsAt(buf);
    AtConcat(buf, 0, q, a + (b + c));
    AtConcat(buf, |q|, a, b + c);
    AtConcat(buf, |q| + |a|, b, c);
    QuestionsRoundTrip(buf, 0, m.questions);
    RecordsRoundTrip(buf, |q|, m.answers);
    RecordsRoundTrip(buf, |q| + |a|, m.authorities);
    RecordsRoundTrip(buf, |q| + |a| + |b|, m.additionals);
  }

  lemma WholeIsAt(buf: seq<byte>)
    ensures At(buf, 0, buf)
  {
    assert buf[0..|buf|] == buf;
  }

  ghost predicate CountsFit(m: Message) {
    |m.questions| < 0x1_0000 && |m.answers| < 0x1_0000 && |m.authorities| < 0x1_0000 && |m.additionals| < 0x1_0000
  }

  /** Nothing is lost: names are in canonical form, data is as long as announced, no additional records. */
  ghost predicate SurvivesTheWire(m: Message) {
    && m.additionals == []
    && (forall i :: 0 <= i < |m.questions| ==> WellDotted(m.questions[i].name))
    && SurvivingRecords(m.answers) && SurvivingRecords(m.authorities)
  }

  ghost predicate SurvivingRecords(rrs: seq<Record>) {
    forall i :: 0 <= i < |rrs| ==> WellDotted(rrs[i].name) && rrs[i].rdlength == |rrs[i].rdata|
  }

  lemma {:induction false} QuestionsSurvive(qs: seq<Question>)
    ensures CanonicalQuestions(qs) == qs <==> forall i :: 0 <= i < |qs| ==> WellDotted(qs[i].name)
  {
    hide WellDotted, Canonical;
    if qs != [] {
      CanonicalExactlyWhen(qs[0].name);
      QuestionsSurvive(qs[1..]);
      assert qs == [qs[0]] + qs[1..];
      var c := CanonicalQuestions(qs);
      assert c[0] == CanonicalQuestion(qs[0]) && c[1..] == CanonicalQuestions(qs[1..]);
      assert (forall i :: 0 <= i < |qs| ==> WellDotted(qs[i].name)) <==>
        WellDotted(qs[0].name) && forall i :: 0 <= i < |qs[1..]| ==> WellDotted(qs[1..][i].name);
    }
  }

  lemma DataSurvives(rr: Record)
    requires rr.rdlength <= |rr.rdata|
    ensures Data(rr) == rr.rdata <==> rr.rdlength == |rr.rdata|
  {
  }

  lemma {:induction false} RecordsSurvive(rrs: seq<Record>)
    requires WritableRecords(rrs)
    ensures CanonicalRecords(rrs) == rrs <==> SurvivingRecords(rrs)
  {
    hide WellDotted, Canonical, Writable;
    if rrs != [] {
      CanonicalExactlyWhen(rrs[0].name);
      RecordsSurvive(rrs[1..]);
      assert rrs == [rrs[0]] + rrs[1..];
      var c := CanonicalRecords(rrs);
      assert c[0] == CanonicalRecord(rrs[0]) && c[1..] == CanonicalRecords(rrs[1..]);
      assert WritableRecord(rrs[0]);
      DataSurvives(rrs[0]);
      assert SurvivingRecords(rrs) <==>
        WellDotted(rrs[0].name) && rrs[0].rdlength == |rrs[0].rdata| && SurvivingRecords(rrs[1..]);
    }
  }

  /** The body comes back unchanged exactly when the parser accepts it and the message survives the wire. */
  lemma BodySurvivesExactlyWhen(m: Message)
    requires WritableMessage(m)
    ensures var body := ParseBody(EncodeBody(m), |m.questions|, |m.answers|, |m.authorities|, |m.additionals|);
      && (body.Success? <==> ReadableMessage(m))
      && (body == Success((m.questions, m.answers, m.authorities)) && m.additionals == []
          <==> ReadableMessage(m) && SurvivesTheWire(m))
  {
    BodyRoundTrip(m);
    QuestionsSurvive(m.questions);
    RecordsSurvive(m.answers);
    RecordsSurvive(m.authorities);
    hide ParseBody, EncodeBody, WellDotted, Writable, ReadableRecords, CanonicalQuestions, CanonicalRecords;
  }

  /** Each section is read back with as many entries as its count says. */
  lemma BodyHasCounts(buf: seq<byte>, qd: nat, an: nat, ns: nat, ar: nat)
    ensures var r := ParseBody(buf, qd, an, ns, ar);
      r.Success? ==> |r.value.0| == qd && |r.value.1| == an && |r.value.2| == ns
  {
    hide ParseQuestions, ParseRecords;
  }

  /** The message that the parts of a parsed reply make up. */
  function ReplyMessage(id: uint16, rd: bool, rcode: Rcode, body: (seq<Question>, seq<Record>, seq<Record>)): (m: Message) {
    Message(id, rd, rcode, body.0, body.1, body.2, [])
  }

  /**
   What a composed reply, header and body, parses back to: always the same id, flag and code, and
   exactly the message, without loss, if and only if its counts fit their fields, its records are not
   too long for the parser and it survives the wire.
   */
  lemma ReplyParsesBack(m: Message, header: DnsQueryHeader)
    requires WritableMessage(m)
    requires header.Valid() && header.buf[..] == ReplyHeader(
      m.id, m.rd, m.rcode, |m.questions|, |m.answers|, |m.authorities|, |m.additionals|)
    ensures header.Id() == m.id && header.Rd() == m.rd && header.GetRcode() == m.rcode
    ensures var body := ParseBody(EncodeBody(m), header.QdCount(), header.AnCount(), header.NsCount(), header.ArCount());
      (body.Success? && ReplyMessage(header.Id(), header.Rd(), header.GetRcode(), body.value) == m)
      <==> CountsFit(m) && ReadableMessage(m) && SurvivesTheWire(m)
  {
    ReplyHeaderReadsBack(header, m.id, m.rd, m.rcode, |m.questions|, |m.answers|, |m.authorities|, |m.additionals|);
    hide ReplyHeader, DnsQueryHeader.Id, DnsQueryHeader.Rd, DnsQueryHeader.GetRcode;
    hide DnsQueryHeader.QdCount, DnsQueryHeader.AnCount, DnsQueryHeader.NsCount, DnsQueryHeader.ArCount;
    BodySurvivesExactlyWhen(m);
    CountsInHeader(m, header.QdCount(), header.AnCount(), header.NsCount(), header.ArCount());
  }

  /** A body parsed with counts cut to 16 bits makes up the message only when no count was cut. */
  lemma CountsInHeader(m: Message, qd: uint16, an: uint16, ns: uint16, ar: uint16)
    requires qd == |m.questions| % 0x1_0000 && an == |m.answers| % 0x1_0000
    requires ns == |m.authorities| % 0x1_0000 && ar == |m.additionals| % 0x1_0000
    ensures CountsFit(m) <==>
      (qd, an, ns, ar) == (|m.questions|, |m.answers|, |m.authorities|, |m.additionals|)
    ensures var body := ParseBody(EncodeBody(m), qd, an, ns, ar);
      body.Success? && ReplyMessage(m.id, m.rd, m.rcode, body.value) == m ==> CountsFit(m)
  {
    hide ParseBody, EncodeBody;
    if ParseBody(EncodeBody(m), qd, an, ns, ar).Success? {
      BodyHasCounts(EncodeBody(m), qd, an, ns, ar);
    }
  }
}
