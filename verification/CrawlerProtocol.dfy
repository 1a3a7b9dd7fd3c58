/**
 The crawler protocol: three-byte headers, the send queue with one message in flight, and the reader
 that takes header and body in turn.
 */
module CrawlerProtocol {
  import opened Shared
  import opened Wire

  datatype MessageType = NOT_A_MESSAGE | HOME_AGENT_DISCOVERED | HOME_AGENT_ASSIGNMENT

  datatype Item = Item(kind: MessageType, body: seq<byte>)

  // ---------------------------------------------------------------- headers

  function Code(kind: MessageType): (c: byte) {
    match kind
    case NOT_A_MESSAGE => 0
    case HOME_AGENT_DISCOVERED => 1
    case HOME_AGENT_ASSIGNMENT => 2
  }

  function KindOf(c: byte): (kind: MessageType)
    ensures forall k :: c == Code(k) ==> kind == k
  {
    match c
    case 1 => HOME_AGENT_DISCOVERED
    case 2 => HOME_AGENT_ASSIGNMENT
    case _ => NOT_A_MESSAGE
  }

  /** Every byte but the two of the real message types reads as no message. */
  lemma KindMeaning(c: byte)
    ensures KindOf(c) == HOME_AGENT_DISCOVERED <==> c == 1
    ensures KindOf(c) == HOME_AGENT_ASSIGNMENT <==> c == 2
  {
  }

  const HEADER: nat := 3

  /** The length field has 16 bits; a longer body is announced modulo 2^16. */
  function EncodeHeader(item: Item): (r: seq<byte>)
    ensures |r| == HEADER
  {
    [Code(item.kind)] + EncodeShort(|item.body| % 0x1_0000)
  }

  function EncodeItem(item: Item): (r: seq<byte>) {
    EncodeHeader(item) + item.body
  }

  function EncodeItems(items: seq<Item>): (r: seq<byte>) {
    if items == [] then [] else EncodeItem(items[0]) + EncodeItems(items[1..])
  }

  lemma {:induction false} EncodeItemsSnoc(items: seq<Item>, item: Item)
    ensures EncodeItems(items + [item]) == EncodeItems(items) + EncodeItem(item)
  {
    hide EncodeItem;
    if items == [] {
      assert [item][1..] == [] && [] + [item] == [item];
    } else {
      assert (items + [item])[1..] == items[1..] + [item];
      EncodeItemsSnoc(items[1..], item);
    }
  }

  class Header {
    const buf: array<byte>

    ghost predicate Valid() {
      buf.Length == HEADER
    }

    constructor ()
      ensures Valid() && fresh(buf)
    {
      buf := new byte[HEADER];
    }

    method SetKind(kind: MessageType)
      requires Valid()
      modifies buf
      ensures buf[..] == old(buf[..])[0 := Code(kind)]
    {
      buf[0] := Code(kind);
    }

    method SetLength(length: nat)
      requires Valid()
      modifies buf
      ensures buf[..] == [old(buf[0])] + EncodeShort(length % 0x1_0000)
    {
      var v := length % 0x1_0000;
      buf[1] := v / 0x100;
      buf[2] := v % 0x100;
    }

    function Kind(): MessageType
      requires Valid()
      reads buf
    {
      KindOf(buf[0])
    }

    function Length(): uint16
      requires Valid()
      reads buf
    {
      DecodeShort(buf[1], buf[2])
    }
  }

  /** A header read back from the wire says what was sent, the length modulo 2^16. */
  lemma HeaderRoundTrip(item: Item, header: Header)
    requires header.Valid() && header.buf[..] == EncodeHeader(item)
    ensures header.Kind() == item.kind && header.Length() == |item.body| % 0x1_0000
  {
    var h := header.buf[..];
    assert forall i :: 0 <= i < HEADER ==> header.buf[i] == h[i];
  }

  /** On the wire: one byte for the type, two for the length with the high-order byte first, then the body. */
  lemma ItemLayout(item: Item)
    ensures var e := EncodeItem(item);
      && |e| == 3 + |item.body|
      && e[0] == (if item.kind == HOME_AGENT_DISCOVERED then 1 else if item.kind == HOME_AGENT_ASSIGNMENT then 2 else 0)
      && BigEndian(e[1..3]) == |item.body| % 0x1_0000
      && e[3..] == item.body
  {
    var length := |item.body| % 0x1_0000;
    ShortInNetworkOrder(length);
    assert EncodeItem(item)[1..3] == EncodeShort(length);
  }

  // ---------------------------------------------------------------- the send queue

  /** Fields of bufwrite, with the item being written and the history of items given and reported. */
  datatype Writer = Writer(
    connected: bool, inFlight: Option<Item>, queue: seq<Item>, given: seq<Item>, reported: seq<Item>)

  function InFlightItems(w: Writer): (r: seq<Item>)
    ensures |r| <= 1
  {
    if w.inFlight.Some? then [w.inFlight.value] else []
  }

  /** Reported, in-flight and queued items together are the given ones, in order. */
  ghost predicate InOrder(w: Writer) {
    w.reported + InFlightItems(w) + w.queue == w.given
  }

  ghost predicate WriterSound(w: Writer) {
    && InOrder(w)
    && (w.inFlight.Some? ==> w.connected)
    && (w.connected && w.inFlight.None? ==> w.queue == [])
  }

  /** send_bufitem */
  function Submit(w: Writer, item: Item): (r: Writer) {
    if w.connected && w.inFlight.None? then w.(inFlight := Some(item)) else w.(queue := w.queue + [item])
  }

  /** send_next_bufitem */
  function SubmitNext(w: Writer): (r: Writer) {
    if w.queue == [] then w else Submit(w.(queue := w.queue[1..]), w.queue[0])
  }

  function SendMsg(w: Writer, item: Item): (r: Writer) {
    Submit(w.(given := w.given + [item]), item)
  }

  function Connected(w: Writer): (r: Writer) {
    SubmitNext(w.(connected := true))
  }

  /** handle_bufitem_sent; on an error everything still queued is reported as lost, in order. */
  function Sent(w: Writer, ok: bool): (r: Writer)
    requires w.inFlight.Some?
  {
    if ok then SubmitNext(w.(inFlight := None, reported := w.reported + [w.inFlight.value]))
    else w.(inFlight := None, reported := w.reported + [w.inFlight.value] + w.queue, queue := [])
  }

  lemma {:induction false} WriterStaysSound(w: Writer, item: Item, ok: bool)
    requires WriterSound(w)
    ensures WriterSound(SendMsg(w, item))
    ensures w.inFlight.None? ==> WriterSound(Connected(w))
    ensures w.inFlight.Some? ==> WriterSound(Sent(w, ok))
  {
    assert w.queue != [] ==> [w.queue[0]] + w.queue[1..] == w.queue;
  }

  ghost predicate AllEqual<T>(s: seq<T>) {
    forall i :: 0 <= i < |s| ==> s[i] == s[0]
  }

  lemma {:induction false} RotationFixes<T>(s: seq<T>)
    requires s != []
    ensures s[1..] + [s[0]] == s <==> AllEqual(s)
  {
    var rotated := s[1..] + [s[0]];
    if rotated == s {
      assert forall i :: 0 <= i < |s| - 1 ==> s[i] == s[i + 1] by {
        assert forall i :: 0 <= i < |s| - 1 ==> rotated[i] == s[i + 1];
      }
      EqualNeighbours(s, |s| - 1);
    }
  }

  lemma {:induction false} EqualNeighbours<T>(s: seq<T>, n: nat)
    requires n < |s| && forall i :: 0 <= i < |s| - 1 ==> s[i] == s[i + 1]
    ensures forall i :: 0 <= i <= n ==> s[i] == s[0]
  {
    if n > 0 {
      EqualNeighbours(s, n - 1);
      assert s[n - 1] == s[n - 1 + 1];
    }
  }

  /**
   connected() keeps the order exactly when nothing is in flight or all queued items are the same:
   called during a write it puts the first queued item behind the others.
   */
  lemma ConnectedKeepsOrderExactlyWhen(w: Writer)
    requires WriterSound(w)
    ensures InOrder(Connected(w)) <==> w.inFlight.None? || AllEqual(w.queue)
    ensures WriterSound(Connected(w)) <==> InOrder(Connected(w))
  {
    WriterStaysSound(w, Item(NOT_A_MESSAGE, []), true);
    if w.inFlight.Some? && w.queue != [] {
      RotationFixes(w.queue);
      hide AllEqual;
      var sent := w.reported + InFlightItems(w);
      var rotated := w.queue[1..] + [w.queue[0]];
      assert (sent + rotated)[|sent|..] == rotated;
      assert (sent + w.queue)[|sent|..] == w.queue;
    }
  }

  const NEW_WRITER := Writer(false, None, [], [], [])

  /** Two different items queued behind a write change places when the class is told again that it is connected. */
  lemma ConnectedDuringWriteReorders(a: Item, b: Item, c: Item)
    requires b != c
    ensures var w := SendMsg(SendMsg(SendMsg(Connected(NEW_WRITER), a), b), c);
      && WriterSound(w) && w.queue == [b, c]
      && Connected(w).queue == [c, b] && !InOrder(Connected(w))
  {
    var w := SendMsg(SendMsg(SendMsg(Connected(NEW_WRITER), a), b), c);
    assert w.queue[1..] == [c] && [a] + [b, c] == [a, b, c];
    ConnectedKeepsOrderExactlyWhen(w);
    assert w.queue[1] != w.queue[0];
  }

  datatype WriterEvent = Given(item: Item) | NowConnected | Done(ok: bool)

  /** Events of the writer alone; completions without a write and connections during one do not occur. */
  function WriterNext(w: Writer, e: WriterEvent): (r: Writer) {
    match e
    case Given(item) => SendMsg(w, item)
    case NowConnected => if w.inFlight.None? then Connected(w) else w
    case Done(ok) => if w.inFlight.Some? then Sent(w, ok) else w
  }

  function RunWriter(w: Writer, events: seq<WriterEvent>): (r: Writer)
    decreases |events|
  {
    if events == [] then w else RunWriter(WriterNext(w, events[0]), events[1..])
  }

  function GivenItems(events: seq<WriterEvent>): (r: seq<Item>) {
    if events == [] then [] else (if events[0].Given? then [events[0].item] else []) + GivenItems(events[1..])
  }

  lemma WriterNextKeepsOrder(w: Writer, e: WriterEvent)
    requires WriterSound(w)
    ensures WriterSound(WriterNext(w, e))
    ensures WriterNext(w, e).given == w.given + if e.Given? then [e.item] else []
  {
    WriterStaysSound(w, if e.Given? then e.item else Item(NOT_A_MESSAGE, []), if e.Done? then e.ok else true);
  }

  /**
   Over every run, with write errors at any point, the items given split in order into those reported,
   the one in flight and those queued; so each is reported at most once, and none is lost.
   */
  lemma {:induction false} EveryWriterRunKeepsOrder(w: Writer, events: seq<WriterEvent>)
    requires WriterSound(w)
    ensures WriterSound(RunWriter(w, events))
    ensures RunWriter(w, events).given == w.given + GivenItems(events)
    decreases |events|
  {
    if events != [] {
      hide WriterSound, WriterNext;
      WriterNextKeepsOrder(w, events[0]);
      EveryWriterRunKeepsOrder(WriterNext(w, events[0]), events[1..]);
    }
  }

  class BufWrite {
    var connected: bool
    var sendQueue: seq<Item>
    var sendInProgress: bool
    /** The item whose write is under way. */
    ghost var inFlight: Option<Item>
    ghost var given: seq<Item>
    ghost var reported: seq<Item>

    ghost function State(): Writer
      reads this
    {
      Writer(connected, inFlight, sendQueue, given, reported)
    }

    ghost predicate Valid()
      reads this
    {
      WriterSound(State()) && sendInProgress == inFlight.Some?
    }

    constructor ()
      ensures Valid() && State() == NEW_WRITER
    {
      connected, sendInProgress, sendQueue := false, false, [];
      inFlight, given, reported := None, [], [];
    }

    method SendBufitem(item: Item)
      requires sendInProgress == inFlight.Some?
      modifies this
      ensures sendInProgress == inFlight.Some? && State() == Submit(old(State()), item)
    {
      if connected && !sendInProgress {
        sendInProgress := true;
        inFlight := Some(item);
      } else {
        sendQueue := sendQueue + [item];
      }
    }

    method SendNextBufitem()
      requires sendInProgress == inFlight.Some?
      modifies this
      ensures sendInProgress == inFlight.Some? && State() == SubmitNext(old(State()))
    {
      if sendQueue != [] {
        var next := sendQueue[0];
        sendQueue := sendQueue[1..];
        SendBufitem(next);
      }
    }

    method Send(kind: MessageType, str: seq<byte>)
      requires Valid()
      modifies this
      ensures Valid() && State() == SendMsg(old(State()), Item(kind, str))
    {
      WriterStaysSound(State(), Item(kind, str), true);
      given := given + [Item(kind, str)];
      SendBufitem(Item(kind, str));
    }

    /** Told again during a write, the class puts its queue out of order, as the lemma above says. */
    method OnConnected()
      requires Valid()
      modifies this
      ensures State() == Connected(old(State())) && sendInProgress == inFlight.Some?
      ensures Valid() <==> !old(sendInProgress) || AllEqual(old(sendQueue))
    {
      ConnectedKeepsOrderExactlyWhen(State());
      connected := true;
      SendNextBufitem();
    }

    /** The write of `item` has completed, well or badly. Returns what the callbacks are told. */
    method HandleBufitemSent(ok: bool, item: Item) returns (succeeded: seq<Item>, failed: seq<Item>)
      requires Valid() && inFlight == Some(item)
      modifies this
      ensures Valid() && State() == Sent(old(State()), ok)
      ensures if ok then succeeded == [item] && failed == [] else succeeded == [] && failed == [item] + old(sendQueue)
      ensures reported == old(reported) + succeeded + failed
    {
      WriterStaysSound(State(), item, ok);
      sendInProgress := false;
      inFlight := None;
      succeeded, failed := [], [];
      if ok {
        succeeded := [item];
        reported := reported + [item];
        SendNextBufitem();
      } else {
        failed := [item];
        var i := 0;
        while i < |sendQueue|
          invariant 0 <= i <= |sendQueue| && failed == [item] + sendQueue[..i]
        {
          failed := failed + [sendQueue[i]];
          i := i + 1;
        }
        reported := reported + [item] + sendQueue;
        sendQueue := [];
      }
    }
  }

  // ---------------------------------------------------------------- the reader

  /** What a C string keeps of a byte string. */
  function CutAtNul(s: seq<byte>): (r: seq<byte>)
    ensures 0 !in s ==> r == s
  {
    if s == [] || s[0] == 0 then [] else [s[0]] + CutAtNul(s[1..])
  }

  /**
   parse_string: the string must be terminated by its last byte, and what it keeps is cut at the
   first NUL.
   */
  method ParseString(buf: array<byte>, len: nat) returns (r: Result<seq<byte>>)
    requires len >= 1
    ensures r.Success? <==> len <= buf.Length && buf[len - 1] == 0
    ensures r.Success? ==> r.value == CutAtNul(buf[..len - 1])
  {
    if buf.Length < len || buf[len - 1] != 0 {
      return Failure;
    }
    var str: seq<byte>, i := [], 0;
    while buf[i] != 0
      invariant 0 <= i <= len - 1
      invariant str == buf[..i] && 0 !in str
      decreases len - i
    {
      str := str + [buf[i]];
      i := i + 1;
    }
    CutAt(buf[..len - 1], i);
    return Success(str);
  }

  /** The cut is at the first NUL, or at the end. */
  lemma {:induction false} CutAt(text: seq<byte>, k: nat)
    requires k <= |text| && 0 !in text[..k] && (k < |text| ==> text[k] == 0)
    ensures CutAtNul(text) == text[..k]
  {
    if k > 0 {
      assert text[0] == text[..k][0] && text[1..][..k - 1] == text[..k][1..];
      CutAt(text[1..], k - 1);
      assert text[..k] == [text[0]] + text[1..][..k - 1];
    }
  }

  /** A C string ends before its first NUL. */
  lemma {:induction false} CutMeaning(s: seq<byte>)
    ensures var k := |CutAtNul(s)|;
      k <= |s| && CutAtNul(s) == s[..k] && 0 !in s[..k] && (k < |s| ==> s[k] == 0)
  {
    if s != [] && s[0] != 0 {
      CutMeaning(s[1..]);
      var k := |CutAtNul(s[1..])|;
      assert s[..k + 1] == [s[0]] + s[1..][..k];
    }
  }

  const READ_BUFFER: nat := 256

  datatype Phase = AwaitHeader | AwaitBody(kind: MessageType, length: nat) | Stopped

  datatype Reader = Reader(registered: set<MessageType>, phase: Phase, delivered: seq<Item>)

  /** How many bytes the pending read asks for. */
  function Wanted(r: Reader): (n: nat) {
    match r.phase
    case AwaitHeader => HEADER
    case AwaitBody(_, length) => length
    case Stopped => 0
  }

  /** handle_header_read and handle_body_read on the bytes that were asked for. */
  function Received(r: Reader, bytes: seq<byte>): (r': Reader)
    requires |bytes| == Wanted(r)
  {
    match r.phase
    case Stopped => r
    case AwaitHeader =>
      var kind, length := KindOf(bytes[0]), DecodeShort(bytes[1], bytes[2]);
      if length > READ_BUFFER - 1 || kind !in r.registered then r.(phase := Stopped)
      else r.(phase := AwaitBody(kind, length))
    case AwaitBody(kind, _) =>
      if kind in r.registered then r.(phase := AwaitHeader, delivered := r.delivered + [Item(kind, CutAtNul(bytes))])
      else r.(phase := Stopped)
  }

  class BufRead {
    const registered: set<MessageType>
    const header: Header
    const buf: array<byte>
    var phase: Phase
    /** What the handlers have been called with. */
    var delivered: seq<Item>

    ghost predicate Valid()
      reads this, header.buf
    {
      && header.Valid() && buf.Length == READ_BUFFER && buf != header.buf
      && (phase.AwaitBody? ==>
            phase.kind == header.Kind() && phase.length == header.Length() && phase.length < READ_BUFFER)
    }

    function State(): Reader
      reads this
    {
      Reader(registered, phase, delivered)
    }

    constructor (registered: set<MessageType>)
      ensures Valid() && fresh(buf) && fresh(header.buf) && State() == Reader(registered, AwaitHeader, [])
    {
      this.registered, phase, delivered := registered, AwaitHeader, [];
      header := new Header();
      buf := new byte[READ_BUFFER];
    }

    method HandleHeaderRead(bytes: seq<byte>)
      requires Valid() && phase == AwaitHeader && |bytes| == HEADER
      modifies this`phase, header.buf
      ensures Valid() && State() == Received(old(State()), bytes)
    {
      forall i | 0 <= i < HEADER { header.buf[i] := bytes[i]; }
      var length := header.Length();
      if length > buf.Length - 1 {
        phase := Stopped;
      } else if header.Kind() in registered {
        phase := AwaitBody(header.Kind(), length);
      } else {
        phase := Stopped;
      }
    }

    /** The body gets a NUL behind it and is handed on as a C string. */
    method HandleBodyRead(bytes: seq<byte>)
      requires Valid() && phase.AwaitBody? && |bytes| == phase.length
      modifies this`phase, this`delivered, buf
      ensures Valid() && State() == Received(old(State()), bytes)
    {
      forall i | 0 <= i < |bytes| { buf[i] := bytes[i]; }
      buf[|bytes|] := 0;
      assert buf[..|bytes|] == bytes;
      var str := ParseString(buf, |bytes| + 1);
      if str.Success? && header.Kind() in registered {
        delivered := delivered + [Item(header.Kind(), str.value)];
        phase := AwaitHeader;
      } else {
        phase := Stopped;
      }
    }
  }

  /** Items that the reader takes: a registered type and a body that fits its buffer. */
  predicate Acceptable(item: Item, registered: set<MessageType>) {
    item.kind in registered && |item.body| < READ_BUFFER
  }

  /**
   One message on its own: fed the header and body of an item, the reader hands it on unchanged and
   waits for the next header exactly when the type is registered, the body fits the buffer and
   contains no NUL.
   */
  lemma MessageTakenExactlyWhen(r: Reader, item: Item)
    requires r.phase == AwaitHeader
    ensures var r1 := Received(r, EncodeHeader(item));
      (r1.phase == AwaitBody(item.kind, |item.body|)
       && Received(r1, item.body) == r.(delivered := r.delivered + [item]))
      <==> Acceptable(item, r.registered) && 0 !in item.body
  {
    CutKeepsExactlyWhen(item.body);
    var r1 := Received(r, EncodeHeader(item));
    if Acceptable(item, r.registered) {
      var added := Item(item.kind, CutAtNul(item.body));
      assert (r.delivered + [added])[|r.delivered|] == added;
      assert (r.delivered + [item])[|r.delivered|] == item;
    }
  }

  /**
   A body of 2^16 bytes or more is announced modulo 2^16. Either that is too much and the reader stops,
   or it hands on only so many bytes as a message and takes the rest of the body for headers.
   */
  lemma OversizedBodyIsSplit(r: Reader, item: Item)
    requires r.phase == AwaitHeader && item.kind in r.registered && |item.body| >= 0x1_0000
    ensures var n, r1 := |item.body| % 0x1_0000, Received(r, EncodeHeader(item));
      && (n >= READ_BUFFER ==> r1 == r.(phase := Stopped))
      && (n < READ_BUFFER ==>
            && r1 == r.(phase := AwaitBody(item.kind, n))
            && Received(r1, item.body[..n]) == r.(delivered := r.delivered + [Item(item.kind, CutAtNul(item.body[..n]))]))
  {
  }

  lemma {:induction false} CutKeepsExactlyWhen(s: seq<byte>)
    ensures CutAtNul(s) == s <==> 0 !in s
  {
    if s != [] {
      CutKeepsExactlyWhen(s[1..]);
      assert s == [s[0]] + s[1..];
    }
  }

  // ---------------------------------------------------------------- the two ends together

  /** Writer, the bytes of its item that are not on the wire yet, the wire, and the reader. */
  datatype Link = Link(writer: Writer, unsent: seq<byte>, wire: seq<byte>, reader: Reader)

  datatype Event =
    | Give(item: Item)
    | Connect
    | Transfer(n: nat)
    | WriteDone
    | ReadDone

  /** The bytes that a write just started has to send. */
  function Started(before: Writer, after: Writer, unsent: seq<byte>): (r: seq<byte>) {
    if after.inFlight.Some? && (before.inFlight.None? || after.reported != before.reported)
    then EncodeItem(after.inFlight.value) else unsent
  }

  predicate Enabled(l: Link, e: Event) {
    match e
    case Give(_) => true
    case Connect => l.writer.inFlight.None?
    case Transfer(n) => n <= |l.unsent|
    case WriteDone => l.writer.inFlight.Some? && l.unsent == []
    case ReadDone => !l.reader.phase.Stopped? && Wanted(l.reader) <= |l.wire|
  }

  function Happen(l: Link, e: Event): (r: Link)
    requires Enabled(l, e)
  {
    match e
    case Give(item) =>
      var w := SendMsg(l.writer, item);
      l.(writer := w, unsent := Started(l.writer, w, l.unsent))
    case Connect =>
      var w := Connected(l.writer);
      l.(writer := w, unsent := Started(l.writer, w, l.unsent))
    case Transfer(n) => l.(unsent := l.unsent[n..], wire := l.wire + l.unsent[..n])
    case WriteDone =>
      var w := Sent(l.writer, true);
      l.(writer := w, unsent := Started(l.writer, w, l.unsent))
    case ReadDone =>
      var n := Wanted(l.reader);
      l.(wire := l.wire[n..], reader := Received(l.reader, l.wire[..n]))
  }

  function Cut(items: seq<Item>): (r: seq<Item>) {
    seq(|items|, i requires 0 <= i < |items| => Item(items[i].kind, CutAtNul(items[i].body)))
  }

  /** Items whose write has at least started. */
  function Launched(w: Writer): (r: seq<Item>) {
    w.reported + InFlightItems(w)
  }

  /** The bytes on their way, on the wire or still unsent. */
  function Coming(l: Link): (r: seq<byte>) {
    l.wire + l.unsent
  }

  /** Behind the header of the d-th item. */
  ghost predicate HeaderRead(coming: seq<byte>, sent: seq<Item>, d: nat) {
    d < |sent| && coming == sent[d].body + EncodeItems(sent[d + 1..])
  }

  /** Where the reader is: before a header, before the body of an item it takes, or stopped at one it does not take. */
  ghost predicate ReaderIsAt(r: Reader, coming: seq<byte>, sent: seq<Item>, d: nat)
    requires d <= |sent|
  {
    match r.phase
    case AwaitHeader => coming == EncodeItems(sent[d..])
    case AwaitBody(kind, length) =>
      && HeaderRead(coming, sent, d) && Acceptable(sent[d], r.registered)
      && kind == sent[d].kind && length == |sent[d].body|
    case Stopped => HeaderRead(coming, sent, d) && !Acceptable(sent[d], r.registered)
  }

  /** The reader has delivered the first d launched items, all of them acceptable, each cut at its first NUL. */
  ghost predicate HasDelivered(r: Reader, sent: seq<Item>, d: nat) {
    && |r.delivered| == d <= |sent| && r.delivered == Cut(sent[..d])
    && forall i :: 0 <= i < d ==> Acceptable(sent[i], r.registered)
  }

  /** What is on its way is exactly what the reader still lacks of the launched items. */
  ghost predicate LinkSound(l: Link) {
    && WriterSound(l.writer)
    && (l.writer.inFlight.None? ==> l.unsent == [])
    && HasDelivered(l.reader, Launched(l.writer), |l.reader.delivered|)
    && ReaderIsAt(l.reader, Coming(l), Launched(l.writer), |l.reader.delivered|)
  }

  /** Every length is announced as it is. */
  ghost predicate AllShort(items: seq<Item>) {
    forall i :: 0 <= i < |items| ==> |items[i].body| < 0x1_0000
  }

  // ---------------------------------------------------------------- every run

  lemma {:induction false} EncodeItemsFrom(items: seq<Item>, d: nat)
    requires d < |items|
    ensures EncodeItems(items[d..]) == EncodeItem(items[d]) + EncodeItems(items[d + 1..])
  {
    assert items[d..][1..] == items[d + 1..];
  }

  /** A launched item appends its bytes to what is coming. */
  lemma LaunchAppends(sent: seq<Item>, item: Item, d: nat)
    requires d <= |sent|
    ensures EncodeItems((sent + [item])[d..]) == EncodeItems(sent[d..]) + EncodeItem(item)
    ensures (sent + [item])[..d] == sent[..d]
  {
    assert (sent + [item])[d..] == sent[d..] + [item];
    EncodeItemsSnoc(sent[d..], item);
  }

  /** A step of the writer launches at most one item, whose bytes then become the unsent ones. */
  lemma WriterStepKeepsLink(l: Link, w: Writer, launched: seq<Item>)
    requires LinkSound(l) && WriterSound(w)
    requires |launched| <= 1 && Launched(w) == Launched(l.writer) + launched
    requires launched != [] ==> l.unsent == []
    requires w.inFlight.None? ==> l.unsent == [] && launched == []
    ensures LinkSound(l.(writer := w, unsent := if launched == [] then l.unsent else EncodeItem(launched[0])))
  {
    hide EncodeItem, EncodeItems, WriterSound, Cut, Acceptable;
    var sent, d := Launched(l.writer), |l.reader.delivered|;
    if launched == [] {
      assert Launched(w) == sent;
    } else {
      var item := launched[0];
      assert launched == [item];
      assert Coming(l) == l.wire;
      LaunchKeepsReader(l.reader, l.wire, sent, d, item);
    }
  }

  lemma LaunchKeepsReader(r: Reader, coming: seq<byte>, sent: seq<Item>, d: nat, item: Item)
    requires HasDelivered(r, sent, d) && ReaderIsAt(r, coming, sent, d)
    ensures HasDelivered(r, sent + [item], d) && ReaderIsAt(r, coming + EncodeItem(item), sent + [item], d)
  {
    hide EncodeItem, EncodeItems, Cut, Acceptable;
    LaunchAppends(sent, item, d);
    if d < |sent| {
      LaunchAppends(sent, item, d + 1);
      assert (sent[d].body + EncodeItems(sent[d + 1..])) + EncodeItem(item)
        == sent[d].body + (EncodeItems(sent[d + 1..]) + EncodeItem(item));
    }
  }

  lemma EncodedNothing(items: seq<Item>)
    ensures EncodeItems(items) == [] <==> items == []
    ensures items != [] ==> |EncodeItems(items)| >= HEADER
  {
  }

  /** A header makes the reader wait for its body or stop, according to whether it takes the item. */
  lemma HeaderDecides(r: Reader, item: Item)
    requires r.phase == AwaitHeader && |item.body| < 0x1_0000
    ensures Received(r, EncodeHeader(item)) ==
      r.(phase := if Acceptable(item, r.registered) then AwaitBody(item.kind, |item.body|) else Stopped)
  {
  }

  lemma HeaderComesFirst(wire: seq<byte>, unsent: seq<byte>, item: Item, after: seq<byte>)
    requires |wire| >= HEADER && wire + unsent == EncodeHeader(item) + after
    ensures wire[..HEADER] == EncodeHeader(item) && wire[HEADER..] + unsent == after
  {
    var coming := wire + unsent;
    assert coming[..HEADER] == wire[..HEADER] && coming[HEADER..] == wire[HEADER..] + unsent;
    assert (EncodeHeader(item) + after)[..HEADER] == EncodeHeader(item);
  }

  lemma HeaderStepKeepsLink(l: Link)
    requires LinkSound(l) && AllShort(l.writer.given) && Enabled(l, ReadDone) && l.reader.phase.AwaitHeader?
    ensures LinkSound(Happen(l, ReadDone))
  {
    LaunchedIsGiven(l.writer);
    hide WriterSound, Cut, Acceptable;
    var sent, d := Launched(l.writer), |l.reader.delivered|;
    EncodedNothing(sent[d..]);
    EncodeItemsFrom(sent, d);
    assert sent[d] == l.writer.given[d];
    hide EncodeItems;
    HeaderDecides(l.reader, sent[d]);
    var item, after := sent[d], sent[d].body + EncodeItems(sent[d + 1..]);
    assert EncodeItem(item) + EncodeItems(sent[d + 1..]) == EncodeHeader(item) + after;
    HeaderComesFirst(l.wire, l.unsent, item, after);
    hide Received, EncodeHeader;
  }

  lemma BodyStepKeepsLink(l: Link)
    requires LinkSound(l) && Enabled(l, ReadDone) && l.reader.phase.AwaitBody?
    ensures LinkSound(Happen(l, ReadDone))
  {
    hide WriterSound, EncodeItems, EncodeItem;
    var sent, d, n := Launched(l.writer), |l.reader.delivered|, Wanted(l.reader);
    var coming := Coming(l);
    assert coming[..n] == l.wire[..n] && coming[n..] == l.wire[n..] + l.unsent;
    assert l.wire[..n] == sent[d].body;
    assert coming[n..] == EncodeItems(sent[d + 1..]);
    BodyDelivered(l.reader, sent, d);
    hide Cut, Acceptable, HasDelivered;
  }

  /** The body of an item that the reader takes becomes the next delivery. */
  lemma BodyDelivered(r: Reader, sent: seq<Item>, d: nat)
    requires HasDelivered(r, sent, d) && d < |sent| && Acceptable(sent[d], r.registered)
    requires r.phase == AwaitBody(sent[d].kind, |sent[d].body|)
    ensures var next := Received(r, sent[d].body);
      next.phase == AwaitHeader && next.registered == r.registered
      && |next.delivered| == d + 1 && HasDelivered(next, sent, d + 1)
  {
    assert sent[..d + 1] == sent[..d] + [sent[d]];
    assert Cut(sent[..d + 1]) == Cut(sent[..d]) + [Item(sent[d].kind, CutAtNul(sent[d].body))];
  }

  lemma LaunchedIsGiven(w: Writer)
    requires WriterSound(w)
    ensures Launched(w) <= w.given
  {
  }

  lemma {:induction false} EventKeepsLink(l: Link, e: Event)
    requires LinkSound(l) && AllShort(l.writer.given) && Enabled(l, e)
    ensures LinkSound(Happen(l, e))
  {
    hide EncodeItem, EncodeItems, Cut, Acceptable, HasDelivered, ReaderIsAt, AllShort;
    var w := l.writer;
    match e
    case Give(item) =>
      WriterStaysSound(w, item, true);
      WriterStepKeepsLink(l, SendMsg(w, item), if w.connected && w.inFlight.None? then [item] else []);
    case Connect =>
      WriterStaysSound(w, Item(NOT_A_MESSAGE, []), true);
      WriterStepKeepsLink(l, Connected(w), if w.queue != [] then [w.queue[0]] else []);
    case Transfer(n) =>
      assert (l.wire + l.unsent[..n]) + l.unsent[n..] == l.wire + l.unsent;
    case WriteDone =>
      WriterStaysSound(w, Item(NOT_A_MESSAGE, []), true);
      WriteDoneLaunches(w);
      WriterStepKeepsLink(l, Sent(w, true), if w.queue != [] then [w.queue[0]] else []);
    case ReadDone =>
      if l.reader.phase.AwaitHeader? {
        HeaderStepKeepsLink(l);
      } else {
        BodyStepKeepsLink(l);
      }
  }

  lemma WriteDoneLaunches(w: Writer)
    requires WriterSound(w) && w.inFlight.Some?
    ensures Launched(Sent(w, true)) == Launched(w) + if w.queue != [] then [w.queue[0]] else []
    ensures Sent(w, true).reported != w.reported
  {
    assert |Sent(w, true).reported| == |w.reported| + 1;
  }

  /** Events that cannot happen yet are skipped. */
  function RunLink(l: Link, events: seq<Event>): (r: Link)
    decreases |events|
  {
    if events == [] then l
    else RunLink(if Enabled(l, events[0]) then Happen(l, events[0]) else l, events[1..])
  }

  ghost predicate GivesShort(events: seq<Event>) {
    forall i :: 0 <= i < |events| && events[i].Give? ==> |events[i].item.body| < 0x1_0000
  }

  lemma HappenGives(l: Link, e: Event)
    requires Enabled(l, e)
    ensures Happen(l, e).writer.given == l.writer.given + if e.Give? then [e.item] else []
    ensures Happen(l, e).reader.registered == l.reader.registered
  {
  }

  lemma {:induction false} RunKeepsLink(l: Link, events: seq<Event>)
    requires LinkSound(l) && AllShort(l.writer.given) && GivesShort(events)
    ensures LinkSound(RunLink(l, events)) && AllShort(RunLink(l, events).writer.given)
    ensures RunLink(l, events).reader.registered == l.reader.registered
    decreases |events|
  {
    if events != [] {
      hide LinkSound, Happen, Enabled;
      var next := if Enabled(l, events[0]) then Happen(l, events[0]) else l;
      if Enabled(l, events[0]) {
        EventKeepsLink(l, events[0]);
        HappenGives(l, events[0]);
      }
      RunKeepsLink(next, events[1..]);
    }
  }

  function NewLink(registered: set<MessageType>): (l: Link) {
    Link(NEW_WRITER, [], [], Reader(registered, AwaitHeader, []))
  }

  /** The state of the two ends after the events, from the beginning. */
  function After(registered: set<MessageType>, events: seq<Event>): (l: Link) {
    RunLink(NewLink(registered), events)
  }

  lemma AfterIsSound(registered: set<MessageType>, events: seq<Event>)
    requires GivesShort(events)
    ensures var l := After(registered, events);
      LinkSound(l) && AllShort(l.writer.given) && l.reader.registered == registered
  {
    var start := NewLink(registered);
    assert LinkSound(start) && AllShort(start.writer.given);
    hide LinkSound, RunLink;
    RunKeepsLink(start, events);
  }

  /**
   However writing, transfer and reading interleave, without write errors the handlers have always
   been called with a prefix of what was given to sendmsg, each body cut at its first NUL; and never
   with an item that the reader does not take, nor with one behind it.
   */
  lemma DeliveredIsAlwaysAPrefix(registered: set<MessageType>, events: seq<Event>)
    requires GivesShort(events)
    ensures var l := After(registered, events);
      && |l.reader.delivered| <= FirstRefused(l.writer.given, registered)
      && l.reader.delivered == Cut(l.writer.given[..|l.reader.delivered|])
  {
    AfterIsSound(registered, events);
    var l := After(registered, events);
    LaunchedIsGiven(l.writer);
    var given, d := l.writer.given, |l.reader.delivered|;
    assert Launched(l.writer)[..d] == given[..d];
    assert forall i :: 0 <= i < d ==> Acceptable(given[i], registered);
  }

  /** Position of the first item that the reader does not take, or the length. */
  function FirstRefused(items: seq<Item>, registered: set<MessageType>): (k: nat)
    ensures k <= |items|
    ensures forall i :: 0 <= i < k ==> Acceptable(items[i], registered)
    ensures k < |items| ==> !Acceptable(items[k], registered)
  {
    if items == [] || !Acceptable(items[0], registered) then 0 else 1 + FirstRefused(items[1..], registered)
  }

  /**
   The reader is stopped exactly when the next launched item is one that it does not take and the
   header of that item has been read, so that fewer bytes are on their way than the items left over.
   */
  lemma StoppedExactlyWhen(registered: set<MessageType>, events: seq<Event>)
    requires GivesShort(events)
    ensures var l := After(registered, events);
      var sent, d := Launched(l.writer), |l.reader.delivered|;
      && d <= |sent|
      && (l.reader.phase.Stopped? <==>
            d < |sent| && !Acceptable(sent[d], registered) && |Coming(l)| < |EncodeItems(sent[d..])|)
  {
    AfterIsSound(registered, events);
    var l := After(registered, events);
    hide After, WriterSound;
    var sent, d := Launched(l.writer), |l.reader.delivered|;
    if d < |sent| {
      EncodeItemsFrom(sent, d);
    }
  }

  /** Nothing is queued, in flight or readable any more. */
  predicate Idle(l: Link) {
    l.writer.inFlight.None? && l.writer.queue == [] && !Enabled(l, ReadDone)
  }

  /**
   Once the link is idle, exactly the items before the first refused one have been delivered: all
   that were given, or, if the reader has stopped, all before the one it stopped at.
   */
  lemma NothingIsLost(registered: set<MessageType>, events: seq<Event>)
    requires GivesShort(events)
    ensures var l := After(registered, events);
      Idle(l) ==>
        && l.reader.delivered == Cut(l.writer.given[..FirstRefused(l.writer.given, registered)])
        && (l.reader.phase.Stopped? <==> FirstRefused(l.writer.given, registered) < |l.writer.given|)
  {
    AfterIsSound(registered, events);
    DeliveredIsAlwaysAPrefix(registered, events);
    var l := After(registered, events);
    hide After, Cut, EncodeItems, FirstRefused;
    var sent, d := Launched(l.writer), |l.reader.delivered|;
    if Idle(l) {
      assert sent == l.writer.given;
      assert Coming(l) == l.wire;
      EncodedNothing(sent[d..]);
      assert l.reader.phase.AwaitHeader? ==> d == |sent|;
      assert l.reader.phase.Stopped? ==> d < |sent| && !Acceptable(sent[d], registered);
    }
  }

  lemma {:induction false} CutKeepsNulFree(items: seq<Item>)
    ensures Cut(items) == items <==> forall i :: 0 <= i < |items| ==> 0 !in items[i].body
  {
    forall i | 0 <= i < |items|
      ensures Cut(items)[i] == items[i] <==> 0 !in items[i].body
    {
      CutKeepsExactlyWhen(items[i].body);
    }
    if Cut(items) == items {
      assert forall i :: 0 <= i < |items| ==> Cut(items)[i] == items[i];
    }
  }
}
