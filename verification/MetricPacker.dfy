/**
 Packing metrics into datagrams under a Nagle timer: a buffer is sent when the next metric would not
 fit, when it is exactly full, or when the timer fires.
 */
module MetricPacker {
  const MAX_BUF_SIZE: nat := 65507

  type Metric = seq<char>

  /** A datagram that was sent, and whether its size or the timer was the reason. */
  datatype Datagram = Datagram(metrics: seq<Metric>, bySize: bool)

  datatype State = State(buf: seq<Metric>, bufSize: nat, timer: bool, sent: seq<Datagram>)

  function Size(metrics: seq<Metric>): (n: nat) {
    if metrics == [] then 0 else Size(metrics[..|metrics| - 1]) + |metrics[|metrics| - 1]|
  }

  function Flatten(sent: seq<Datagram>): (r: seq<Metric>) {
    if sent == [] then [] else Flatten(sent[..|sent| - 1]) + sent[|sent| - 1].metrics
  }

  /** send_now: cancels the timer, sends the buffer and starts an empty one. */
  function SendNow(st: State, bySize: bool): (r: State) {
    State([], 0, false, st.sent + [Datagram(st.buf, bySize)])
  }

  /** A buffer that the next metric would overfill is sent first. */
  function MakeRoom(st: State, size: nat): (r: State) {
    if st.bufSize + size > MAX_BUF_SIZE then SendNow(st, true) else st
  }

  function Append(st: State, m: Metric): (r: State) {
    st.(buf := st.buf + [m], bufSize := st.bufSize + |m|)
  }

  /** A buffer that is exactly full is sent at once. */
  function SendFull(st: State): (r: State) {
    if st.bufSize == MAX_BUF_SIZE then SendNow(st, true) else st
  }

  function StartIfFirst(st: State, size: nat): (r: State) {
    if st.bufSize == size then st.(timer := true) else st
  }

  /** add_metric_ */
  function Add(st: State, m: Metric): (r: State) {
    StartIfFirst(SendFull(Append(MakeRoom(st, |m|), m)), |m|)
  }

  /** handle_nagle_timeout without an error. */
  function Timeout(st: State): (r: State)
    requires st.timer
  {
    SendNow(st, false)
  }

  datatype Event = Added(m: Metric) | Fired

  function Next(st: State, e: Event): (r: State) {
    match e
    case Added(m) => Add(st, m)
    case Fired => if st.timer then Timeout(st) else st
  }

  function Run(events: seq<Event>): (r: State) {
    if events == [] then State([], 0, false, []) else Next(Run(events[..|events| - 1]), events[|events| - 1])
  }

  function AddedMetrics(events: seq<Event>): (r: seq<Metric>) {
    if events == [] then [] else
      var e := events[|events| - 1];
      AddedMetrics(events[..|events| - 1]) + if e.Added? then [e.m] else []
  }

  // ---------------------------------------------------------------- conservation and the timer

  /** The counter is the buffer's size, a full buffer never stays, and the timer is pending exactly when something waits. */
  ghost predicate Sound(st: State) {
    && st.bufSize == Size(st.buf) != MAX_BUF_SIZE
    && (st.timer <==> st.buf != [])
  }

  lemma SizeOfSnoc(metrics: seq<Metric>, m: Metric)
    ensures Size(metrics + [m]) == Size(metrics) + |m|
  {
    assert (metrics + [m])[..|metrics|] == metrics;
  }

  lemma FlattenSnoc(sent: seq<Datagram>, d: Datagram)
    ensures Flatten(sent + [d]) == Flatten(sent) + d.metrics
  {
    assert (sent + [d])[..|sent|] == sent;
  }

  /** What has been sent followed by what waits. */
  function Everything(st: State): (r: seq<Metric>) {
    Flatten(st.sent) + st.buf
  }

  lemma SendNowKeeps(st: State, bySize: bool)
    ensures Sound(SendNow(st, bySize)) && Everything(SendNow(st, bySize)) == Everything(st)
  {
    FlattenSnoc(st.sent, Datagram(st.buf, bySize));
  }

  lemma AddKeeps(st: State, m: Metric)
    requires Sound(st)
    ensures Sound(Add(st, m)) && Everything(Add(st, m)) == Everything(st) + [m]
  {
    SendNowKeeps(st, true);
    var room := MakeRoom(st, |m|);
    AppendKeeps(room, m);
    SendNowKeeps(Append(room, m), true);
    TimerKeeps(room, m);
  }

  lemma AppendKeeps(st: State, m: Metric)
    requires Sound(st)
    ensures Append(st, m).bufSize == Size(Append(st, m).buf) && Append(st, m).buf != []
    ensures Everything(Append(st, m)) == Everything(st) + [m]
  {
    SizeOfSnoc(st.buf, m);
  }

  /** The timer starts with the first metric, and at the latest then; metrics without bytes restart it. */
  lemma TimerKeeps(room: State, m: Metric)
    requires Sound(room) && Append(room, m).bufSize == Size(Append(room, m).buf)
    ensures Sound(StartIfFirst(SendFull(Append(room, m)), |m|))
    ensures Everything(StartIfFirst(SendFull(Append(room, m)), |m|)) == Everything(SendFull(Append(room, m)))
  {
    var full := SendFull(Append(room, m));
    hide Size;
    SizeOfNothing();
    if full.buf != [] {
      assert room.buf == [] ==> full.bufSize == |m|;
    }
  }

  /**
   Over every run, whatever the sizes: the datagrams sent followed by the buffer are the metrics added,
   in order, and the timer is pending exactly when the buffer is not empty.
   */
  lemma {:induction false} EveryRunConserves(events: seq<Event>)
    ensures Sound(Run(events)) && Everything(Run(events)) == AddedMetrics(events)
    decreases |events|
  {
    if events != [] {
      var before, e := events[..|events| - 1], events[|events| - 1];
      EveryRunConserves(before);
      match e {
        case Added(m) => AddKeeps(Run(before), m);
        case Fired => SendNowKeeps(Run(before), false);
      }
    }
  }

  // ---------------------------------------------------------------- when datagrams are sent

  /**
   An add, in full. What fits with room to spare is only buffered; what fills the buffer exactly is sent
   with it; what does not fit sends the buffer first and is buffered alone, or sent alone if it fills a
   datagram by itself. Whatever is sent is sent for its size.
   */
  lemma AddMeaning(st: State, m: Metric)
    requires Sound(st)
    ensures var r, total := Add(st, m), Size(st.buf) + |m|;
      && (total < MAX_BUF_SIZE ==> r.sent == st.sent && r.buf == st.buf + [m])
      && (total == MAX_BUF_SIZE ==> r.sent == st.sent + [Datagram(st.buf + [m], true)] && r.buf == [])
      && (total > MAX_BUF_SIZE && |m| != MAX_BUF_SIZE ==> r.sent == st.sent + [Datagram(st.buf, true)] && r.buf == [m])
      && (total > MAX_BUF_SIZE && |m| == MAX_BUF_SIZE ==>
            r.sent == st.sent + [Datagram(st.buf, true)] + [Datagram([m], true)] && r.buf == [])
    ensures Add(st, m).timer <==> Add(st, m).buf != []
  {
    AddKeeps(st, m);
    hide Size, Flatten, Everything;
    assert [] + [m] == [m];
  }

  /** The timer's expiry sends what is buffered, marked as sent by the timer, and stops the timer. */
  lemma TimeoutMeaning(st: State)
    requires st.timer
    ensures Next(st, Fired) == State([], 0, false, st.sent + [Datagram(st.buf, false)])
    ensures !Next(st, Fired).timer ==> Next(Next(st, Fired), Fired) == Next(st, Fired)
  {
  }

  /** How often in a run the timer expired while it was pending. */
  function Expiries(events: seq<Event>): (n: nat) {
    if events == [] then 0 else
      var before := events[..|events| - 1];
      Expiries(before) + if events[|events| - 1].Fired? && Run(before).timer then 1 else 0
  }

  function SentByTimer(sent: seq<Datagram>): (n: nat) {
    if sent == [] then 0 else SentByTimer(sent[..|sent| - 1]) + if sent[|sent| - 1].bySize then 0 else 1
  }

  lemma SentByTimerSnoc(sent: seq<Datagram>, d: Datagram)
    ensures SentByTimer(sent + [d]) == SentByTimer(sent) + if d.bySize then 0 else 1
  {
    assert (sent + [d])[..|sent|] == sent;
  }

  lemma AddSendsForSize(st: State, m: Metric)
    requires Sound(st)
    ensures SentByTimer(Add(st, m).sent) == SentByTimer(st.sent)
  {
    AddMeaning(st, m);
    SentByTimerSnoc(st.sent, Datagram(st.buf + [m], true));
    SentByTimerSnoc(st.sent, Datagram(st.buf, true));
    SentByTimerSnoc(st.sent + [Datagram(st.buf, true)], Datagram([m], true));
    hide SentByTimer, Add, Size;
  }

  /** Over every run the datagrams that were not sent for their size are exactly as many as the expiries. */
  lemma {:induction false} TimerSendsAreExpiries(events: seq<Event>)
    ensures SentByTimer(Run(events).sent) == Expiries(events)
    decreases |events|
  {
    if events != [] {
      var before, e := events[..|events| - 1], events[|events| - 1];
      TimerSendsAreExpiries(before);
      EveryRunConserves(before);
      match e {
        case Added(m) => AddSendsForSize(Run(before), m);
        case Fired => SentByTimerSnoc(Run(before).sent, Datagram(Run(before).buf, false));
      }
    }
  }

  // ---------------------------------------------------------------- datagrams fit

  ghost predicate AllFit(st: State) {
    && (forall i :: 0 <= i < |st.sent| ==> Size(st.sent[i].metrics) <= MAX_BUF_SIZE)
    && Size(st.buf) <= MAX_BUF_SIZE
  }

  ghost predicate SmallMetrics(metrics: seq<Metric>) {
    forall i :: 0 <= i < |metrics| ==> |metrics[i]| <= MAX_BUF_SIZE
  }

  /** Sending moves the buffer into a datagram of the same size. */
  lemma SentFits(st: State, bySize: bool)
    ensures AllFit(SendNow(st, bySize)) <==> AllFit(st)
  {
    SizeOfNothing();
    hide Size;
    var r := SendNow(st, bySize);
    assert r.sent[|st.sent|].metrics == st.buf;
    assert forall i :: 0 <= i < |st.sent| ==> r.sent[i] == st.sent[i];
  }

  lemma FitIgnoresTimer(st: State, timer: bool)
    ensures AllFit(st.(timer := timer)) <==> AllFit(st)
  {
  }

  lemma AppendFitsExactlyWhen(st: State, m: Metric)
    ensures AllFit(Append(st, m)) <==> AllFit(st) && Size(st.buf) + |m| <= MAX_BUF_SIZE
  {
    SizeOfSnoc(st.buf, m);
    hide Size;
  }

  /** Whether everything fits after an add is decided by room and metric; what is sent then stays as large. */
  lemma AddFitsAsAppend(st: State, m: Metric)
    ensures AllFit(Add(st, m)) <==> AllFit(st) && Size(MakeRoom(st, |m|).buf) + |m| <= MAX_BUF_SIZE
  {
    var room := MakeRoom(st, |m|);
    SentFits(st, true);
    AppendFitsExactlyWhen(room, m);
    SentFits(Append(room, m), true);
    FitIgnoresTimer(SendFull(Append(room, m)), true);
    hide AllFit, Append, SendNow, Size;
  }

  lemma AddFitsExactlyWhen(st: State, m: Metric)
    requires Sound(st)
    ensures AllFit(Add(st, m)) <==> AllFit(st) && |m| <= MAX_BUF_SIZE
  {
    AddFitsAsAppend(st, m);
    SizeOfNothing();
    hide AllFit, Size, Add;
  }

  /** No datagram, sent or still filling, is ever too large: exactly when no single metric is. */
  lemma {:induction false} DatagramsFitExactlyWhen(events: seq<Event>)
    ensures AllFit(Run(events)) <==> SmallMetrics(AddedMetrics(events))
    decreases |events|
  {
    if events != [] {
      var before, e := events[..|events| - 1], events[|events| - 1];
      DatagramsFitExactlyWhen(before);
      EveryRunConserves(before);
      match e {
        case Added(m) =>
          SmallSnoc(AddedMetrics(before), m);
          AddFitsExactlyWhen(Run(before), m);
        case Fired =>
          assert AddedMetrics(events) == AddedMetrics(before);
          SentFits(Run(before), false);
      }
    }
  }

  lemma SmallSnoc(metrics: seq<Metric>, m: Metric)
    ensures SmallMetrics(metrics + [m]) <==> SmallMetrics(metrics) && |m| <= MAX_BUF_SIZE
  {
    var all := metrics + [m];
    assert all[|metrics|] == m;
    assert forall i :: 0 <= i < |metrics| ==> all[i] == metrics[i];
  }

  // ---------------------------------------------------------------- how full datagrams are

  /** A datagram sent for its size and the one after it, or the buffer, do not fit into one. */
  ghost predicate Packed(st: State) {
    && (forall i :: 0 <= i < |st.sent| - 1 && st.sent[i].bySize ==>
          Size(st.sent[i].metrics) + Size(st.sent[i + 1].metrics) > MAX_BUF_SIZE)
    && (st.sent != [] && st.sent[|st.sent| - 1].bySize ==>
          var last := Size(st.sent[|st.sent| - 1].metrics);
          last + Size(st.buf) > MAX_BUF_SIZE || (st.buf == [] && last == MAX_BUF_SIZE))
    && (forall i :: 0 <= i < |st.buf| ==> |st.buf[i]| > 0)
  }

  lemma NonemptyIsLarge(metrics: seq<Metric>)
    requires metrics != [] && |metrics[|metrics| - 1]| > 0
    ensures Size(metrics) > 0
  {
  }

  /** Neighbours among the datagrams once the buffer has become one of them. */
  lemma PairsAfterSend(st: State, bySize: bool)
    requires Packed(st) && Size(st.buf) > 0
    ensures var r := SendNow(st, bySize);
      forall i :: 0 <= i < |r.sent| - 1 && r.sent[i].bySize ==>
        Size(r.sent[i].metrics) + Size(r.sent[i + 1].metrics) > MAX_BUF_SIZE
  {
    hide Size;
    var r := SendNow(st, bySize);
    forall i | 0 <= i < |r.sent| - 1 && r.sent[i].bySize
      ensures Size(r.sent[i].metrics) + Size(r.sent[i + 1].metrics) > MAX_BUF_SIZE
    {
      assert r.sent[i] == st.sent[i];
      if i + 1 < |st.sent| {
        assert r.sent[i + 1] == st.sent[i + 1];
      }
    }
  }

  lemma SendNowKeepsPacked(st: State, bySize: bool)
    requires Packed(st) && st.buf != [] && st.bufSize == Size(st.buf)
    requires bySize ==> Size(st.buf) == MAX_BUF_SIZE
    ensures Packed(SendNow(st, bySize))
  {
    NonemptyIsLarge(st.buf);
    PairsAfterSend(st, bySize);
    hide Size;
  }

  /** The overflow send together with the metric that did not fit. */
  lemma OverflowKeepsPacked(st: State, m: Metric)
    requires Packed(st) && Sound(st) && st.buf != [] && |m| > 0 && st.bufSize + |m| > MAX_BUF_SIZE
    ensures Packed(SendNow(st, true).(buf := [m], bufSize := |m|))
  {
    NonemptyIsLarge(st.buf);
    SizeOfSnoc([], m);
    SizeOfNothing();
    assert [] + [m] == [m];
    PairsAfterSend(st, true);
    hide Size;
  }

  lemma AddKeepsPacked(st: State, m: Metric)
    requires Packed(st) && Sound(st) && 0 < |m| <= MAX_BUF_SIZE
    ensures Packed(Add(st, m))
  {
    hide Size, Packed;
    var over := st.bufSize + |m| > MAX_BUF_SIZE;
    var put := Append(MakeRoom(st, |m|), m);
    assert [] + [m] == [m];
    if over {
      SizeOfNothing();
      OverflowKeepsPacked(st, m);
      SizeOfSnoc([], m);
    } else {
      AppendKeepsPacked(st, m);
      SizeOfSnoc(st.buf, m);
    }
    var full := SendFull(put);
    if put.bufSize == MAX_BUF_SIZE {
      SendNowKeepsPacked(put, true);
    }
    PackedIgnoresTimer(full, true);
  }

  lemma PackedIgnoresTimer(st: State, timer: bool)
    ensures Packed(st.(timer := timer)) <==> Packed(st)
  {
  }

  lemma SizeOfNothing()
    ensures Size([]) == 0
  {
  }

  lemma AppendKeepsPacked(st: State, m: Metric)
    requires Packed(st) && |m| > 0
    ensures Packed(st.(buf := st.buf + [m], bufSize := st.bufSize + |m|))
  {
    SizeOfSnoc(st.buf, m);
  }

  ghost predicate ProperMetrics(metrics: seq<Metric>) {
    forall i :: 0 <= i < |metrics| ==> 0 < |metrics[i]| <= MAX_BUF_SIZE
  }

  lemma {:induction false} EveryRunIsPacked(events: seq<Event>)
    requires ProperMetrics(AddedMetrics(events))
    ensures Packed(Run(events))
    decreases |events|
  {
    if events != [] {
      var before, e := events[..|events| - 1], events[|events| - 1];
      var metrics := AddedMetrics(before);
      assert forall i :: 0 <= i < |metrics| ==> metrics[i] == AddedMetrics(events)[i];
      EveryRunIsPacked(before);
      EveryRunConserves(before);
      match e {
        case Added(m) =>
          assert AddedMetrics(events)[|metrics|] == m;
          AddKeepsPacked(Run(before), m);
        case Fired =>
          if Run(before).timer {
            SendNowKeepsPacked(Run(before), false);
          }
      }
    }
  }

  function Bytes(datagrams: seq<Datagram>): (n: nat) {
    if datagrams == [] then 0 else Size(datagrams[0].metrics) + Bytes(datagrams[1..])
  }

  /** D datagrams in a row sent for their size carry at least floor(D / 2) full datagrams' worth of bytes. */
  lemma {:induction false} SizeTriggeredAreHalfFull(events: seq<Event>, from: nat, count: nat)
    requires ProperMetrics(AddedMetrics(events))
    requires from + count <= |Run(events).sent|
    requires forall i :: from <= i < from + count ==> Run(events).sent[i].bySize
    ensures Bytes(Run(events).sent[from..from + count]) >= count / 2 * MAX_BUF_SIZE
    decreases count
  {
    hide Run, AddedMetrics, Size;
    var sent := Run(events).sent;
    if count >= 2 {
      EveryRunIsPacked(events);
      SizeTriggeredAreHalfFull(events, from + 2, count - 2);
      BytesOfTwo(sent, from, from + count);
      assert count / 2 == (count - 2) / 2 + 1;
    }
  }

  lemma BytesOfTwo(sent: seq<Datagram>, from: nat, end: nat)
    requires from + 2 <= end <= |sent|
    ensures Bytes(sent[from..end]) == Size(sent[from].metrics) + Size(sent[from + 1].metrics) + Bytes(sent[from + 2..end])
  {
    var part := sent[from..end];
    assert part[0] == sent[from] && part[1..][0] == sent[from + 1];
    assert part[1..][1..] == sent[from + 2..end];
  }

  // ---------------------------------------------------------------- the code

  class UdpInstrumenter {
    var buf: seq<Metric>
    var bufSize: nat
    var timerPending: bool
    var sent: seq<Datagram>

    function Snapshot(): State
      reads this
    {
      State(buf, bufSize, timerPending, sent)
    }

    constructor ()
      ensures Snapshot() == Run([])
    {
      buf, bufSize, timerPending, sent := [], 0, false, [];
    }

    method AddMetric(m: Metric)
      modifies this
      ensures Snapshot() == Add(old(Snapshot()), m)
    {
      var myBufSize := |m|;
      if bufSize + myBufSize > MAX_BUF_SIZE {
        SendBuffer(true);
      }
      bufSize := bufSize + myBufSize;
      buf := buf + [m];
      if bufSize == MAX_BUF_SIZE {
        SendBuffer(true);
      }
      if bufSize == myBufSize {
        StartTimer();
      }
    }

    method SendBuffer(bySize: bool)
      modifies this
      ensures Snapshot() == SendNow(old(Snapshot()), bySize)
    {
      timerPending := false;
      var bufseq, i: nat := [], 0;
      while i < |buf|
        invariant 0 <= i <= |buf| && bufseq == buf[..i]
        invariant buf == old(buf) && sent == old(sent) && !timerPending
      {
        bufseq := bufseq + [buf[i]];
        i := i + 1;
      }
      assert buf[..i] == buf;
      sent := sent + [Datagram(bufseq, bySize)];
      buf := [];
      bufSize := 0;
    }

    method StartTimer()
      modifies this`timerPending
      ensures timerPending
    {
      timerPending := true;
    }

    /** handle_nagle_timeout; an aborted wait does nothing, and only a pending timer runs out. */
    method HandleNagleTimeout(aborted: bool)
      requires !aborted ==> timerPending
      modifies this
      ensures aborted ==> Snapshot() == old(Snapshot())
      ensures !aborted ==> Snapshot() == SendNow(old(Snapshot()), false)
    {
      if !aborted {
        SendBuffer(false);
      }
    }
  }
}
