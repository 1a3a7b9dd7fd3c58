/**
 Domain names on the wire (RFC 1035 section 3.1, without compression): length-prefixed labels up to
 a zero length, written from and read into dotted text.
 */
module DnsNames {
  import opened Wire

  const DOT: byte := 46
  const MAX_LABEL: nat := 63
  const MAX_NAME: nat := 255

  // ---------------------------------------------------------------- writing

  /** The next label: everything up to the first dot. */
  function FirstLabel(name: seq<byte>): (piece: seq<byte>)
    ensures |piece| <= |name| && piece == name[..|piece|]
    ensures DOT !in piece
    ensures |piece| < |name| ==> name[|piece|] == DOT
  {
    if name == [] || name[0] == DOT then [] else [name[0]] + FirstLabel(name[1..])
  }

  /** What boost::tokenizer makes of a dotted name: the labels between dots, empty ones dropped. */
  function Labels(name: seq<byte>): (labels: seq<seq<byte>>)
    decreases |name|
  {
    if name == [] then [] else
      var piece := FirstLabel(name);
      if piece == [] then Labels(name[1..])
      else [piece] + Labels(name[|piece|..])
  }

  ghost predicate NonemptyLabels(labels: seq<seq<byte>>) {
    forall i :: 0 <= i < |labels| ==> |labels[i]| > 0
  }

  ghost predicate ProperLabels(labels: seq<seq<byte>>) {
    forall i :: 0 <= i < |labels| ==> |labels[i]| > 0 && DOT !in labels[i]
  }

  lemma {:induction false} LabelsAreProper(name: seq<byte>)
    ensures ProperLabels(Labels(name))
    decreases |name|
  {
    if name != [] {
      var piece := FirstLabel(name);
      LabelsAreProper(if piece == [] then name[1..] else name[|piece|..]);
    }
  }

  predicate ShortLabels(labels: seq<seq<byte>>) {
    forall i :: 0 <= i < |labels| ==> |labels[i]| <= MAX_LABEL
  }

  /** Exactly the names that write_name accepts. */
  predicate Writable(name: seq<byte>) {
    |name| <= MAX_NAME && ShortLabels(Labels(name))
  }

  function EncodeLabel(piece: seq<byte>): (r: seq<byte>) {
    if |piece| <= MAX_LABEL then [|piece|] + piece else piece
  }

  function EncodeLabels(labels: seq<seq<byte>>): (r: seq<byte>) {
    if labels == [] then [] else EncodeLabel(labels[0]) + EncodeLabels(labels[1..])
  }

  function EncodeName(name: seq<byte>): (r: seq<byte>) {
    EncodeLabels(Labels(name)) + [0]
  }

  /** Labels as text, each followed by a dot. */
  function Dotted(labels: seq<seq<byte>>): (name: seq<byte>) {
    if labels == [] then [] else labels[0] + [DOT] + Dotted(labels[1..])
  }

  /** The form of a name that survives the wire: single dots, one at the end. */
  function Canonical(name: seq<byte>): (r: seq<byte>) {
    Dotted(Labels(name))
  }

  method WriteLabel(piece: seq<byte>, buf: array<byte>, pos: nat) returns (r: Result<nat>)
    requires pos <= buf.Length
    modifies buf
    ensures Written(old(buf[..]), buf[..], pos, EncodeLabel(piece), |piece| <= MAX_LABEL, r)
  {
    if pos == buf.Length || |piece| > MAX_LABEL {
      return Failure;
    }
    ghost var before := buf[..];
    buf[pos] := |piece|;
    assert buf[..] == Overwrite(before, pos, [|piece|]);
    ghost var middle := buf[..];
    r := WriteBytes(piece, buf, pos + 1);
    WrittenThen(before, middle, buf[..], pos, [|piece| as byte], true, Success(pos + 1), piece, true, r);
  }

  method WriteName(name: seq<byte>, buf: array<byte>, pos: nat) returns (r: Result<nat>)
    requires pos <= buf.Length
    modifies buf
    ensures Written(old(buf[..]), buf[..], pos, EncodeName(name), Writable(name), r)
  {
    hide EncodeLabel, EncodeLabels, Overwrite;
    if |name| > MAX_NAME {
      return Failure;
    }
    var labels := Labels(name);
    r := WriteLabels(labels, buf, pos);
    if r.Failure? {
      return;
    }
    ghost var middle := buf[..];
    var last := WriteBytes([0], buf, r.value);
    WrittenThen(old(buf[..]), middle, buf[..], pos, EncodeLabels(labels), ShortLabels(labels), r, [0], true, last);
    return last;
  }

  /** The loop of write_name over the labels. */
  method WriteLabels(labels: seq<seq<byte>>, buf: array<byte>, pos: nat) returns (r: Result<nat>)
    requires pos <= buf.Length
    modifies buf
    ensures Written(old(buf[..]), buf[..], pos, EncodeLabels(labels), ShortLabels(labels), r)
  {
    ghost var before := buf[..];
    assert Overwrite(before, pos, EncodeLabels(labels[..0])) == before;
    hide EncodeLabel, EncodeLabels, Overwrite;
    var i := 0;
    var at := pos;
    while i < |labels|
      invariant 0 <= i <= |labels|
      invariant Written(before, buf[..], pos, EncodeLabels(labels[..i]), ShortLabels(labels[..i]), Success(at))
    {
      ghost var middle := buf[..];
      var next := WriteLabel(labels[i], buf, at);
      OneLabelMore(labels, i, before, middle, buf[..], pos, at, next);
      if next.Failure? {
        return Failure;
      }
      at := next.value;
      i := i + 1;
    }
    assert labels[..i] == labels;
    return Success(at);
  }

  lemma ShortLabelsSnoc(labels: seq<seq<byte>>, i: nat)
    requires i < |labels|
    ensures ShortLabels(labels[..i + 1]) <==> ShortLabels(labels[..i]) && |labels[i]| <= MAX_LABEL
    ensures ShortLabels(labels) ==> ShortLabels(labels[..i + 1])
  {
  }

  lemma OneLabelMore(labels: seq<seq<byte>>, i: nat, before: seq<byte>, middle: seq<byte>, after: seq<byte>,
                     pos: nat, at: nat, next: Result<nat>)
    requires i < |labels|
    requires Written(before, middle, pos, EncodeLabels(labels[..i]), ShortLabels(labels[..i]), Success(at))
    requires Written(middle, after, at, EncodeLabel(labels[i]), |labels[i]| <= MAX_LABEL, next)
    ensures Written(before, after, pos, EncodeLabels(labels[..i + 1]), ShortLabels(labels[..i + 1]), next)
    ensures next.Failure? ==> Written(before, after, pos, EncodeLabels(labels), ShortLabels(labels), Failure)
  {
    ShortLabelsSnoc(labels, i);
    hide EncodeLabel, EncodeLabels, ShortLabels, Written;
    EncodeLabelsSnoc(labels, i);
    EncodeLabelsPrefix(labels, i + 1);
    WrittenStep(before, middle, after, pos, at, EncodeLabels(labels[..i]), ShortLabels(labels[..i]),
                EncodeLabel(labels[i]), |labels[i]| <= MAX_LABEL, next,
                EncodeLabels(labels[..i + 1]), ShortLabels(labels[..i + 1]), EncodeLabels(labels), ShortLabels(labels));
  }

  lemma {:induction false} EncodeLabelsSnoc(labels: seq<seq<byte>>, i: nat)
    requires i < |labels|
    ensures EncodeLabels(labels[..i + 1]) == EncodeLabels(labels[..i]) + EncodeLabel(labels[i])
    decreases i
  {
    if i == 0 {
      assert labels[..1] == [labels[0]] && labels[..0] == [];
    } else {
      EncodeLabelsSnoc(labels[1..], i - 1);
      assert labels[1..][..i] == labels[..i + 1][1..];
      assert labels[1..][..i - 1] == labels[..i][1..];
    }
  }

  lemma {:induction false} EncodeLabelsPrefix(labels: seq<seq<byte>>, i: nat)
    requires i <= |labels|
    ensures |EncodeLabels(labels[..i])| <= |EncodeLabels(labels)|
    decreases |labels| - i
  {
    if i == |labels| {
      assert labels[..i] == labels;
    } else {
      EncodeLabelsSnoc(labels, i);
      EncodeLabelsPrefix(labels, i + 1);
    }
  }

  // ---------------------------------------------------------------- reading

  /** The name read from `pos` on when labels of `used` octets in all have been read already. */
  function NameAt(buf: seq<byte>, pos: nat, used: nat): (r: Result<(seq<byte>, nat)>)
    requires pos <= |buf|
    ensures r.Success? ==> pos < r.value.1 <= |buf|
    decreases |buf| - pos
  {
    if pos == |buf| || buf[pos] > MAX_LABEL then Failure else
      var len: nat := buf[pos];
      if len == 0 then Success(([], pos + 1))
      else if used + len > MAX_NAME || pos + 1 + len > |buf| then Failure
      else
        var rest :- NameAt(buf, pos + 1 + len, used + len);
        Success((buf[pos + 1..pos + 1 + len] + [DOT] + rest.0, rest.1))
  }

  function ParseNameAt(buf: seq<byte>, pos: nat): (r: Result<(seq<byte>, nat)>)
    requires pos <= |buf|
    ensures r.Success? ==> pos < r.value.1 <= |buf|
  {
    NameAt(buf, pos, 0)
  }

  method ParseLabelLen(buf: seq<byte>, pos: nat) returns (r: Result<(nat, nat)>)
    requires pos <= |buf|
    ensures r == if pos == |buf| || buf[pos] > MAX_LABEL then Failure else Success((buf[pos] as nat, pos + 1))
  {
    if pos == |buf| {
      return Failure;
    }
    var len: nat := buf[pos];
    if len > MAX_LABEL {
      return Failure;
    }
    return Success((len, pos + 1));
  }

  /** Appends a label and its dot to the name read so far. */
  method ParseLabel(name: seq<byte>, len: nat, buf: seq<byte>, pos: nat) returns (r: Result<(seq<byte>, nat)>)
    requires pos <= |buf|
    ensures r == if pos + len > |buf| then Failure else Success((name + buf[pos..pos + len] + [DOT], pos + len))
  {
    var sname, i := name, 0;
    while i < len
      invariant 0 <= i <= len && pos + i <= |buf|
      invariant sname == name + buf[pos..pos + i]
    {
      if pos + i == |buf| {
        return Failure;
      }
      sname := sname + [buf[pos + i]];
      i := i + 1;
    }
    return Success((sname + [DOT], pos + len));
  }

  method ParseName(buf: seq<byte>, pos: nat) returns (r: Result<(seq<byte>, nat)>)
    requires pos <= |buf|
    ensures r == ParseNameAt(buf, pos)
  {
    var sname: seq<byte>, nameLen: nat, at: nat := [], 0, pos;
    var first := ParseLabelLen(buf, at);
    if first.Failure? {
      return Failure;
    }
    var labelLen := first.value.0;
    at := first.value.1;
    ghost var start := pos;
    PrependNothing(NameAt(buf, pos, 0));
    while labelLen != 0
      invariant pos <= start < |buf| && at == start + 1
      invariant labelLen == buf[start] <= MAX_LABEL
      invariant ParseNameAt(buf, pos) == Prepend(sname, NameAt(buf, start, nameLen))
      decreases |buf| - start
    {
      NameStep(sname, buf, start, nameLen);
      nameLen := nameLen + labelLen;
      if nameLen > MAX_NAME {
        return Failure;
      }
      var piece := ParseLabel(sname, labelLen, buf, at);
      if piece.Failure? {
        return Failure;
      }
      start := at + labelLen;
      sname := piece.value.0;
      at := piece.value.1;
      var next := ParseLabelLen(buf, at);
      if next.Failure? {
        return Failure;
      }
      labelLen := next.value.0;
      at := next.value.1;
    }
    assert sname + [] == sname;
    return Success((sname, at));
  }

  ghost function Prepend(name: seq<byte>, r: Result<(seq<byte>, nat)>): Result<(seq<byte>, nat)> {
    if r.Failure? then Failure else Success((name + r.value.0, r.value.1))
  }

  lemma PrependNothing(r: Result<(seq<byte>, nat)>)
    ensures Prepend([], r) == r
  {
    if r.Success? {
      assert [] + r.value.0 == r.value.0;
    }
  }

  /** One turn of the parser's loop: a nonempty label is taken off and put behind what was read. */
  lemma NameStep(name: seq<byte>, buf: seq<byte>, pos: nat, used: nat)
    requires pos < |buf| && 0 < buf[pos] <= MAX_LABEL
    ensures used + buf[pos] > MAX_NAME || pos + 1 + buf[pos] > |buf| ==> NameAt(buf, pos, used) == Failure
    ensures used + buf[pos] <= MAX_NAME && pos + 1 + buf[pos] <= |buf| ==>
      Prepend(name, NameAt(buf, pos, used)) ==
      Prepend(name + buf[pos + 1..pos + 1 + buf[pos]] + [DOT], NameAt(buf, pos + 1 + buf[pos], used + buf[pos]))
  {
    if used + buf[pos] <= MAX_NAME && pos + 1 + buf[pos] <= |buf| {
      var rest := NameAt(buf, pos + 1 + buf[pos], used + buf[pos]);
      if rest.Success? {
        var taken := buf[pos + 1..pos + 1 + buf[pos]];
        assert name + (taken + [DOT] + rest.value.0) == name + taken + [DOT] + rest.value.0;
      }
    }
  }

  // ---------------------------------------------------------------- cutting at dots

  lemma {:induction false} FirstLabelBeforeDot(l: seq<byte>, rest: seq<byte>)
    requires DOT !in l
    ensures FirstLabel(l + [DOT] + rest) == l
    decreases |l|
  {
    if l != [] {
      assert l[0] in l;
      assert (l + [DOT] + rest)[1..] == l[1..] + [DOT] + rest;
      FirstLabelBeforeDot(l[1..], rest);
      assert l == [l[0]] + l[1..];
    }
  }

  lemma LabelsOfDotFree(a: seq<byte>)
    requires DOT !in a
    ensures Labels(a) == if a == [] then [] else [a]
  {
    assert FirstLabel(a) == a by { WholeIsLabel(a); }
    hide FirstLabel;
    assert a[|a|..] == [];
  }

  lemma WholeIsLabel(a: seq<byte>)
    requires DOT !in a
    ensures FirstLabel(a) == a
  {
    hide FirstLabel;
    assert forall i :: 0 <= i < |a| ==> a[i] in a;
    assert a[..|a|] == a;
  }

  lemma LabelsBehindDot(b: seq<byte>)
    ensures Labels([DOT] + b) == Labels(b)
  {
    assert FirstLabel([DOT] + b) == [];
    hide FirstLabel;
    assert ([DOT] + b)[1..] == b;
  }

  /** A dot-free piece in front of a dot is a label of its own, unless it is empty. */
  lemma LabelsOfJoinDotFree(a: seq<byte>, b: seq<byte>)
    requires DOT !in a
    ensures Labels(a + [DOT] + b) == (if a == [] then [] else [a]) + Labels(b)
  {
    var name := a + [DOT] + b;
    FirstLabelBeforeDot(a, b);
    LabelsBehindDot(b);
    hide FirstLabel;
    assert name[|a|..] == [DOT] + b;
    if a == [] {
      assert name == [DOT] + b;
    }
  }

  lemma SplitAtFirstDot(a: seq<byte>)
    requires DOT in a
    ensures |FirstLabel(a)| < |a| && a == FirstLabel(a) + [DOT] + a[|FirstLabel(a)| + 1..]
  {
    hide FirstLabel;
    assert a[..|a|] == a;
  }

  /** The labels of two names with a dot between them are the labels of one and then of the other. */
  lemma {:induction false} LabelsOfJoin(a: seq<byte>, b: seq<byte>)
    ensures Labels(a + [DOT] + b) == Labels(a) + Labels(b)
    decreases |a|
  {
    hide Labels, FirstLabel;
    if DOT !in a {
      LabelsOfDotFree(a);
      LabelsOfJoinDotFree(a, b);
    } else {
      SplitAtFirstDot(a);
      var piece := FirstLabel(a);
      var rest := a[|piece| + 1..];
      assert a + [DOT] + b == piece + [DOT] + (rest + [DOT] + b);
      LabelsOfJoin(rest, b);
      LabelsOfJoinDotFree(piece, rest);
      LabelsOfJoinDotFree(piece, rest + [DOT] + b);
    }
  }

  // ---------------------------------------------------------------- both together

  function TotalLength(labels: seq<seq<byte>>): (n: nat) {
    if labels == [] then 0 else |labels[0]| + TotalLength(labels[1..])
  }

  lemma {:induction false} LabelsFit(name: seq<byte>)
    ensures TotalLength(Labels(name)) <= |name|
    decreases |name|
  {
    if name != [] {
      var piece := FirstLabel(name);
      if piece == [] {
        LabelsFit(name[1..]);
      } else {
        LabelsFit(name[|piece|..]);
        assert ([piece] + Labels(name[|piece|..]))[1..] == Labels(name[|piece|..]);
      }
    }
  }

  /** A label in front of a name that reads as `rest`. */
  lemma NameAtFront(buf: seq<byte>, pos: nat, used: nat, l: seq<byte>, rest: seq<byte>, end: nat)
    requires pos < |buf| && buf[pos] == |l| && 0 < |l| <= MAX_LABEL && used + |l| <= MAX_NAME
    requires pos + 1 + |l| <= |buf| && buf[pos + 1..pos + 1 + |l|] == l
    requires NameAt(buf, pos + 1 + |l|, used + |l|) == Success((rest, end))
    ensures NameAt(buf, pos, used) == Success((l + [DOT] + rest, end))
  {
  }

  lemma {:induction false} LabelsReadBack(buf: seq<byte>, pos: nat, labels: seq<seq<byte>>, used: nat)
    requires pos <= |buf| && At(buf, pos, EncodeLabels(labels) + [0])
    requires ShortLabels(labels) && NonemptyLabels(labels)
    requires used + TotalLength(labels) <= MAX_NAME
    ensures NameAt(buf, pos, used) == Success((Dotted(labels), pos + |EncodeLabels(labels)| + 1))
    decreases |labels|
  {
    hide At, EncodeLabels, NameAt, ShortLabels, NonemptyLabels, TotalLength, Dotted;
    if labels == [] {
      NoLabelReadBack(buf, pos, used);
    } else {
      LabelsTail(labels);
      FirstLabelReadBack(buf, pos, labels);
      LabelsReadBack(buf, pos + 1 + |labels[0]|, labels[1..], used + |labels[0]|);
      NameAtFront(buf, pos, used, labels[0], Dotted(labels[1..]), pos + |EncodeLabels(labels)| + 1);
      DottedFront(labels);
    }
  }

  lemma NoLabelReadBack(buf: seq<byte>, pos: nat, used: nat)
    requires At(buf, pos, EncodeLabels([]) + [0])
    ensures pos < |buf| && NameAt(buf, pos, used) == Success((Dotted([]), pos + |EncodeLabels([])| + 1))
  {
    assert EncodeLabels([]) + [0] == [0];
    NameEnds(buf, pos, used);
  }

  lemma NameEnds(buf: seq<byte>, pos: nat, used: nat)
    requires At(buf, pos, [0])
    ensures pos < |buf| && NameAt(buf, pos, used) == Success(([], pos + 1))
  {
    AtByte(buf, pos, 0);
  }

  lemma DottedFront(labels: seq<seq<byte>>)
    requires labels != []
    ensures Dotted(labels) == labels[0] + [DOT] + Dotted(labels[1..])
  {
  }

  lemma LabelsTail(labels: seq<seq<byte>>)
    requires labels != [] && ShortLabels(labels) && NonemptyLabels(labels)
    ensures 0 < |labels[0]| <= MAX_LABEL
    ensures ShortLabels(labels[1..]) && NonemptyLabels(labels[1..])
    ensures TotalLength(labels) == |labels[0]| + TotalLength(labels[1..])
  {
  }

  lemma Regroup(a: seq<byte>, b: seq<byte>, c: seq<byte>, d: seq<byte>)
    ensures ((a + b) + c) + d == a + (b + (c + d))
  {
  }

  lemma FirstLabelReadBack(buf: seq<byte>, pos: nat, labels: seq<seq<byte>>)
    requires labels != [] && pos <= |buf| && At(buf, pos, EncodeLabels(labels) + [0])
    requires |labels[0]| <= MAX_LABEL
    ensures pos < |buf| && buf[pos] == |labels[0]|
    ensures pos + 1 + |labels[0]| <= |buf| && buf[pos + 1..pos + 1 + |labels[0]|] == labels[0]
    ensures At(buf, pos + 1 + |labels[0]|, EncodeLabels(labels[1..]) + [0])
    ensures |EncodeLabels(labels)| == 1 + |labels[0]| + |EncodeLabels(labels[1..])|
  {
    var l, rest := labels[0], EncodeLabels(labels[1..]) + [0];
    var len: seq<byte> := [|l|];
    assert EncodeLabels(labels) == (len + l) + EncodeLabels(labels[1..]);
    Regroup(len, l, EncodeLabels(labels[1..]), [0]);
    hide At, EncodeLabels;
    AtConcat(buf, pos, len, l + rest);
    AtConcat(buf, pos + 1, l, rest);
    AtByte(buf, pos, |l|);
    AtSlice(buf, pos + 1, l);
  }

  lemma AtByte(buf: seq<byte>, pos: nat, b: byte)
    requires At(buf, pos, [b])
    ensures pos < |buf| && buf[pos] == b
  {
    assert buf[pos] == buf[pos..pos + 1][0];
  }

  /** Reading a written name gives its canonical form and ends right behind it, wherever it stands. */
  lemma NameRoundTrip(buf: seq<byte>, pos: nat, name: seq<byte>)
    requires pos <= |buf| && Writable(name) && At(buf, pos, EncodeName(name))
    ensures ParseNameAt(buf, pos) == Success((Canonical(name), pos + |EncodeName(name)|))
  {
    LabelsFit(name);
    LabelsAreProper(name);
    LabelsReadBack(buf, pos, Labels(name), 0);
  }

  /** No two dots in a row, no dot in front, and a dot at the end unless the name is empty. */
  ghost predicate WellDotted(name: seq<byte>) {
    && (name != [] ==> name[0] != DOT && name[|name| - 1] == DOT)
    && (forall i :: 0 <= i < |name| - 1 ==> !(name[i] == DOT && name[i + 1] == DOT))
  }

  /** The names that come back unchanged are exactly the well-dotted ones. */
  lemma {:induction false} CanonicalExactlyWhen(name: seq<byte>)
    ensures Canonical(name) == name <==> WellDotted(name)
    decreases |name|
  {
    if WellDotted(name) {
      WellDottedIsCanonical(name);
    }
    LabelsAreProper(name);
    DottedIsWellDotted(Labels(name));
  }

  lemma {:induction false} WellDottedIsCanonical(name: seq<byte>)
    requires WellDotted(name)
    ensures Canonical(name) == name
    decreases |name|
  {
    if name != [] {
      hide Labels, FirstLabel, WellDotted;
      WellDottedSplit(name);
      var piece := FirstLabel(name);
      var rest := name[|piece| + 1..];
      WellDottedIsCanonical(rest);
      assert ([piece] + Labels(rest))[1..] == Labels(rest);
    }
  }

  /** A well-dotted name is a label, a dot and a well-dotted rest. */
  lemma WellDottedSplit(name: seq<byte>)
    requires WellDotted(name) && name != []
    ensures 0 < |FirstLabel(name)| < |name|
    ensures var piece, rest := FirstLabel(name), name[|FirstLabel(name)| + 1..];
      name == piece + [DOT] + rest && WellDotted(rest) && Labels(name) == [piece] + Labels(rest)
  {
    assert FirstLabel(name) != [];
    assert name[|name| - 1] in name;
    SplitAtFirstDot(name);
    hide Labels, FirstLabel;
    var piece := FirstLabel(name);
    RestIsWellDotted(name, |piece|);
    hide WellDotted;
    LabelsOfJoinDotFree(piece, name[|piece| + 1..]);
  }

  lemma RestIsWellDotted(name: seq<byte>, k: nat)
    requires WellDotted(name) && k < |name| && name[k] == DOT
    ensures WellDotted(name[k + 1..])
  {
    var rest := name[k + 1..];
    forall i | 0 <= i < |rest| - 1
      ensures !(rest[i] == DOT && rest[i + 1] == DOT)
    {
      assert rest[i] == name[k + 1 + i] && rest[i + 1] == name[k + 2 + i];
    }
    if rest != [] {
      assert rest[0] == name[k + 1] && rest[|rest| - 1] == name[|name| - 1];
    }
  }

  lemma {:induction false} DottedIsWellDotted(labels: seq<seq<byte>>)
    requires ProperLabels(labels)
    ensures WellDotted(Dotted(labels))
    decreases |labels|
  {
    if labels != [] {
      var l, rest := labels[0], Dotted(labels[1..]);
      DottedIsWellDotted(labels[1..]);
      var name := l + [DOT] + rest;
      assert l[0] in l;
      forall i | 0 <= i < |name| - 1
        ensures !(name[i] == DOT && name[i + 1] == DOT)
      {
        if i < |l| {
          assert name[i] == l[i] && l[i] in l;
        } else if i > |l| {
          assert name[i] == rest[i - |l| - 1] && name[i + 1] == rest[i - |l|];
        }
      }
      if rest != [] {
        assert name[|name| - 1] == rest[|rest| - 1];
      }
    }
  }

  /** Canonical form is reached in one step. */
  lemma CanonicalIsStable(name: seq<byte>)
    ensures Canonical(Canonical(name)) == Canonical(name)
  {
    LabelsAreProper(name);
    DottedIsWellDotted(Labels(name));
    CanonicalExactlyWhen(Canonical(name));
  }

  // ---------------------------------------------------------------- the other direction

  /** The labels that stand on the wire before the zero length. */
  function WireLabels(buf: seq<byte>, pos: nat, used: nat): (labels: seq<seq<byte>>)
    requires pos <= |buf|
    decreases |buf| - pos
  {
    if NameAt(buf, pos, used).Failure? || buf[pos] == 0 then [] else
      [buf[pos + 1..pos + 1 + buf[pos]]] + WireLabels(buf, pos + 1 + buf[pos], used + buf[pos])
  }

  ghost predicate Represents(buf: seq<byte>, pos: nat, labels: seq<seq<byte>>, name: seq<byte>, end: nat)
    requires pos <= end <= |buf|
  {
    && name == Dotted(labels)
    && buf[pos..end] == EncodeLabels(labels) + [0]
    && ShortLabels(labels)
    && forall i :: 0 <= i < |labels| ==> |labels[i]| > 0
  }

  /**
   Exactly which bytes read as a name: length-prefixed nonempty labels of at most 63 octets each and
   255 together, and a zero behind them.
   */
  ghost predicate IsWireName(buf: seq<byte>, pos: nat, labels: seq<seq<byte>>) {
    && ShortLabels(labels) && NonemptyLabels(labels) && TotalLength(labels) <= MAX_NAME
    && At(buf, pos, EncodeLabels(labels) + [0])
  }

  lemma NameParsesExactlyWhen(buf: seq<byte>, pos: nat, name: seq<byte>, end: nat)
    requires pos <= |buf|
    ensures ParseNameAt(buf, pos) == Success((name, end)) <==>
      exists labels :: IsWireName(buf, pos, labels) && name == Dotted(labels) && end == pos + |EncodeLabels(labels)| + 1
  {
    hide NameAt, EncodeLabels, ShortLabels, NonemptyLabels, TotalLength, Dotted, WireLabels;
    if ParseNameAt(buf, pos) == Success((name, end)) {
      ParsedIsWireName(buf, pos);
      assert IsWireName(buf, pos, WireLabels(buf, pos, 0));
    }
    if labels :| IsWireName(buf, pos, labels) && name == Dotted(labels) && end == pos + |EncodeLabels(labels)| + 1 {
      LabelsReadBack(buf, pos, labels, 0);
    }
  }

  lemma ParsedIsWireName(buf: seq<byte>, pos: nat)
    requires pos <= |buf| && ParseNameAt(buf, pos).Success?
    ensures var labels, r := WireLabels(buf, pos, 0), ParseNameAt(buf, pos).value;
      IsWireName(buf, pos, labels) && r.0 == Dotted(labels) && r.1 == pos + |EncodeLabels(labels)| + 1
  {
    WireLabelsMeaning(buf, pos, 0);
    WireLabelsFit(buf, pos, 0);
    hide NameAt, EncodeLabels, Dotted, WireLabels, TotalLength;
    var labels, end := WireLabels(buf, pos, 0), ParseNameAt(buf, pos).value.1;
    assert |buf[pos..end]| == |EncodeLabels(labels)| + 1;
  }

  lemma {:induction false} WireLabelsFit(buf: seq<byte>, pos: nat, used: nat)
    requires pos <= |buf| && used <= MAX_NAME && NameAt(buf, pos, used).Success?
    ensures used + TotalLength(WireLabels(buf, pos, used)) <= MAX_NAME
    decreases |buf| - pos
  {
    if buf[pos] == 0 {
      assert WireLabels(buf, pos, used) == [];
    } else {
      NameUnfolds(buf, pos, used);
      NameStaysBelow(buf, pos, used);
      hide NameAt, WireLabels;
      var l, tail := buf[pos + 1..pos + 1 + buf[pos]], WireLabels(buf, pos + 1 + buf[pos], used + buf[pos]);
      WireLabelsFit(buf, pos + 1 + buf[pos], used + buf[pos]);
      assert ([l] + tail)[1..] == tail;
    }
  }

  lemma NameStaysBelow(buf: seq<byte>, pos: nat, used: nat)
    requires pos < |buf| && buf[pos] != 0 && NameAt(buf, pos, used).Success?
    ensures used + buf[pos] <= MAX_NAME
  {
  }

  /** What stands behind a name does not matter for reading it. */
  lemma {:induction false} NameIgnoresRest(buf: seq<byte>, pos: nat, used: nat, rest: seq<byte>)
    requires pos <= |buf| && NameAt(buf, pos, used).Success?
    ensures NameAt(buf + rest, pos, used) == NameAt(buf, pos, used)
    decreases |buf| - pos
  {
    assert pos < |buf| && (buf + rest)[pos] == buf[pos];
    if buf[pos] != 0 {
      NameUnfolds(buf, pos, used);
      NameStaysBelow(buf, pos, used);
      var l, next := buf[pos + 1..pos + 1 + buf[pos]], pos + 1 + buf[pos];
      NameIgnoresRest(buf, next, used + buf[pos], rest);
      assert (buf + rest)[pos + 1..next] == l;
      var r := NameAt(buf, next, used + buf[pos]).value;
      NameAtFront(buf, pos, used, l, r.0, r.1);
      NameAtFront(buf + rest, pos, used, l, r.0, r.1);
    }
  }

  lemma SplitHead(buf: seq<byte>, pos: nat, next: nat, end: nat)
    requires pos < next <= end <= |buf|
    ensures buf[pos..end] == ([buf[pos]] + buf[pos + 1..next]) + buf[next..end]
  {
    var right := ([buf[pos]] + buf[pos + 1..next]) + buf[next..end];
    assert |right| == end - pos;
    forall i | 0 <= i < end - pos
      ensures buf[pos..end][i] == right[i]
    {
    }
  }

  lemma OneMoreWireLabel(buf: seq<byte>, pos: nat, next: nat, labels: seq<seq<byte>>, name: seq<byte>, end: nat)
    requires pos < next <= end <= |buf| && next == pos + 1 + buf[pos] && 0 < buf[pos] <= MAX_LABEL
    requires Represents(buf, next, labels, name, end)
    ensures Represents(buf, pos, [buf[pos + 1..next]] + labels, buf[pos + 1..next] + [DOT] + name, end)
  {
    var l := buf[pos + 1..next];
    var all := [l] + labels;
    assert all[1..] == labels;
    assert EncodeLabels(all) == ([buf[pos]] + l) + EncodeLabels(labels);
    SplitHead(buf, pos, next, end);
  }

  lemma {:induction false} WireLabelsMeaning(buf: seq<byte>, pos: nat, used: nat)
    requires pos <= |buf| && NameAt(buf, pos, used).Success?
    ensures Represents(buf, pos, WireLabels(buf, pos, used), NameAt(buf, pos, used).value.0, NameAt(buf, pos, used).value.1)
    decreases |buf| - pos
  {
    hide Represents, NameAt, WireLabels;
    if buf[pos] == 0 {
      NoWireLabel(buf, pos, used);
    } else {
      NameUnfolds(buf, pos, used);
      var next, used' := pos + 1 + buf[pos], used + buf[pos];
      WireLabelsMeaning(buf, next, used');
      var rest := NameAt(buf, next, used').value;
      OneMoreWireLabel(buf, pos, next, WireLabels(buf, next, used'), rest.0, rest.1);
    }
  }

  lemma NoWireLabel(buf: seq<byte>, pos: nat, used: nat)
    requires pos < |buf| && buf[pos] == 0
    ensures NameAt(buf, pos, used) == Success(([], pos + 1))
    ensures Represents(buf, pos, WireLabels(buf, pos, used), [], pos + 1)
  {
    assert buf[pos..pos + 1] == [0];
  }

  /** A name that starts with a label is that label, a dot and the name behind it. */
  lemma NameUnfolds(buf: seq<byte>, pos: nat, used: nat)
    requires pos < |buf| && buf[pos] != 0 && NameAt(buf, pos, used).Success?
    ensures buf[pos] <= MAX_LABEL && pos + 1 + buf[pos] <= |buf|
    ensures NameAt(buf, pos + 1 + buf[pos], used + buf[pos]).Success?
    ensures var l, rest := buf[pos + 1..pos + 1 + buf[pos]], NameAt(buf, pos + 1 + buf[pos], used + buf[pos]).value;
      && NameAt(buf, pos, used).value == (l + [DOT] + rest.0, rest.1)
      && WireLabels(buf, pos, used) == [l] + WireLabels(buf, pos + 1 + buf[pos], used + buf[pos])
  {
  }

  lemma {:induction false} LabelsOfDotted(labels: seq<seq<byte>>)
    requires ProperLabels(labels)
    ensures Labels(Dotted(labels)) == labels
    decreases |labels|
  {
    if labels != [] {
      hide Labels;
      LabelsOfDotted(labels[1..]);
      LabelsOfJoinDotFree(labels[0], Dotted(labels[1..]));
      assert labels == [labels[0]] + labels[1..];
    }
  }

  /** Labels that stand on the wire stay short when the text that was read is cut at its dots again. */
  lemma {:induction false} CutLabelsAreShort(labels: seq<seq<byte>>)
    requires ShortLabels(labels)
    ensures ShortLabels(Labels(Dotted(labels)))
    decreases |labels|
  {
    if labels != [] {
      LabelsOfJoin(labels[0], Dotted(labels[1..]));
      CutLabelsAreShort(labels[1..]);
      LabelsNoLonger(labels[0]);
    }
  }

  lemma {:induction false} LabelsNoLonger(name: seq<byte>)
    ensures forall i :: 0 <= i < |Labels(name)| ==> |Labels(name)[i]| <= |name|
    decreases |name|
  {
    if name != [] {
      var piece := FirstLabel(name);
      LabelsNoLonger(if piece == [] then name[1..] else name[|piece|..]);
    }
  }

  /** Different lists of labels look different on the wire. */
  lemma {:induction false} EncodingIsInjective(a: seq<seq<byte>>, b: seq<seq<byte>>)
    requires ShortLabels(a) && ShortLabels(b)
    requires (forall i :: 0 <= i < |a| ==> |a[i]| > 0) && (forall i :: 0 <= i < |b| ==> |b[i]| > 0)
    requires EncodeLabels(a) + [0] == EncodeLabels(b) + [0]
    ensures a == b
    decreases |a|
  {
    hide EncodeLabels;
    FirstByte(a);
    FirstByte(b);
    if a != [] && b != [] {
      FirstOnWire(a);
      FirstOnWire(b);
      EncodingIsInjective(a[1..], b[1..]);
      assert a == [a[0]] + a[1..] && b == [b[0]] + b[1..];
    }
  }

  lemma FirstByte(labels: seq<seq<byte>>)
    requires ShortLabels(labels)
    ensures (EncodeLabels(labels) + [0])[0] == if labels == [] then 0 else |labels[0]|
  {
  }

  lemma FirstOnWire(labels: seq<seq<byte>>)
    requires labels != [] && ShortLabels(labels)
    ensures var wire, n := EncodeLabels(labels) + [0], |labels[0]|;
      && |wire| > n + 1
      && wire[1..n + 1] == labels[0] && wire[n + 1..] == EncodeLabels(labels[1..]) + [0]
  {
    var rest, n := EncodeLabels(labels[1..]), |labels[0]|;
    var wire := [n as byte] + labels[0] + (rest + [0]);
    assert EncodeLabels(labels) + [0] == wire by {
      assert EncodeLabel(labels[0]) == [n as byte] + labels[0];
    }
    hide EncodeLabels;
    assert wire[1..n + 1] == labels[0] && wire[n + 1..] == rest + [0];
  }

  /**
   A name read from the wire is written back as the same bytes if and only if none of its labels
   contains a dot; either way its labels are short enough to be written.
   */
  lemma ReadNameWritesBack(buf: seq<byte>, pos: nat)
    requires pos <= |buf| && ParseNameAt(buf, pos).Success?
    ensures var r, labels := ParseNameAt(buf, pos).value, WireLabels(buf, pos, 0);
      && (EncodeName(r.0) == buf[pos..r.1] <==> forall i :: 0 <= i < |labels| ==> DOT !in labels[i])
      && (Writable(r.0) <==> |r.0| <= MAX_NAME)
  {
    var r, labels := ParseNameAt(buf, pos).value, WireLabels(buf, pos, 0);
    WireLabelsMeaning(buf, pos, 0);
    hide EncodeLabels, Dotted, WireLabels, NameAt, Labels;
    CutLabelsAreShort(labels);
    LabelsAreProper(r.0);
    if EncodeName(r.0) == buf[pos..r.1] {
      EncodingIsInjective(Labels(r.0), labels);
    }
    if forall i :: 0 <= i < |labels| ==> DOT !in labels[i] {
      LabelsOfDotted(labels);
    }
  }

  /** A label that is a dot reads as ".." and writes back as the empty name. */
  lemma DottedLabelIsLost()
    ensures ParseNameAt([1, DOT, 0], 0) == Success(([DOT, DOT], 3))
    ensures EncodeName([DOT, DOT]) == [0]
  {
    var buf: seq<byte> := [1, DOT, 0];
    assert NameAt(buf, 2, 1) == Success(([], 3));
    assert buf[1..2] + [DOT] + [] == [DOT, DOT];
    assert NameAt(buf, 0, 0) == Success(([DOT, DOT], 3));
    var dot: seq<byte>, dots: seq<byte> := [DOT], [DOT, DOT];
    assert dots[1..] == dot && dot[1..] == [];
    assert FirstLabel(dots) == [] && FirstLabel(dot) == [];
    assert Labels(dot) == Labels([]) == [];
    assert Labels(dots) == Labels(dot);
  }
}
