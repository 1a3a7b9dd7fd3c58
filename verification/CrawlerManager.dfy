/**
 The home agent database of the crawler manager: agents are handed to the least loaded poller, wait
 in a queue while no poller is connected, and are handed out again when their poller disconnects.
 */
module CrawlerManager {
  import opened LeastLoaded

  /** An entry of pollerdb_: the map is kept in key order, so entries are ordered by id. */
  datatype Poller = Poller(id: nat, agents: seq<string>)

  /** `told` records which poller has been sent which assignment. */
  datatype State = State(queue: seq<string>, hadb: set<string>, pollers: seq<Poller>, told: seq<(nat, string)>)

  // ---------------------------------------------------------------- what the steps do

  function Names(s: seq<string>): (r: set<string>) {
    set a | a in s
  }

  function Loads(pollers: seq<Poller>): (r: seq<nat>)
    ensures |r| == |pollers|
  {
    seq(|pollers|, i requires 0 <= i < |pollers| => |pollers[i].agents|)
  }

  /** The first poller with the shortest list among the first n. */
  function LeastLoadedPoller(pollers: seq<Poller>, n: nat): (r: nat)
    requires 0 < n <= |pollers|
    ensures r < n
    ensures forall j :: 0 <= j < n ==> |pollers[r].agents| <= |pollers[j].agents|
    ensures forall j :: 0 <= j < r ==> |pollers[r].agents| < |pollers[j].agents|
  {
    if n == 1 then 0 else
      var min := LeastLoadedPoller(pollers, n - 1);
      if |pollers[n - 1].agents| < |pollers[min].agents| then n - 1 else min
  }

  function GiveTo(pollers: seq<Poller>, i: nat, name: string): (r: seq<Poller>)
    requires i < |pollers|
    ensures |r| == |pollers|
  {
    pollers[i := pollers[i].(agents := pollers[i].agents + [name])]
  }

  /** assign_home_agent */
  function Assign(st: State, name: string): (r: State)
    requires st.pollers != []
    ensures |r.pollers| == |st.pollers| && r.queue == st.queue
  {
    if name in st.hadb then st else
      var min := LeastLoadedPoller(st.pollers, |st.pollers|);
      st.(hadb := st.hadb + {name}, pollers := GiveTo(st.pollers, min, name),
          told := st.told + [(st.pollers[min].id, name)])
  }

  /** process_queue */
  function ProcessQueue(st: State): (r: State)
    decreases |st.queue|
  {
    if st.queue == [] || st.pollers == [] then st
    else ProcessQueue(Assign(st, st.queue[0]).(queue := st.queue[1..]))
  }

  /** std::map::insert keeps the entries in key order and does nothing for a present key. */
  function InsertPoller(pollers: seq<Poller>, id: nat): (r: seq<Poller>) {
    if pollers == [] || id < pollers[0].id then [Poller(id, [])] + pollers
    else if id == pollers[0].id then pollers
    else [pollers[0]] + InsertPoller(pollers[1..], id)
  }

  function Find(pollers: seq<Poller>, id: nat): (i: nat)
    ensures i <= |pollers|
    ensures i < |pollers| ==> pollers[i].id == id
  {
    if pollers == [] || pollers[0].id == id then 0 else 1 + Find(pollers[1..], id)
  }

  function Connect(st: State, id: nat): (r: State) {
    ProcessQueue(st.(pollers := InsertPoller(st.pollers, id)))
  }

  /** The list of the lost poller goes to the queue and out of the database, before the queue is processed. */
  function Requeue(st: State, i: nat): (r: State)
    requires i < |st.pollers|
  {
    var agents := st.pollers[i].agents;
    st.(queue := st.queue + agents, hadb := st.hadb - Names(agents),
        pollers := st.pollers[..i] + st.pollers[i + 1..])
  }

  function Disconnect(st: State, id: nat): (r: State)
    requires Registered(st.pollers, id)
  {
    ProcessQueue(Requeue(st, Find(st.pollers, id)))
  }

  function AddAgent(st: State, name: string): (r: State) {
    if st.pollers != [] then Assign(st, name) else st.(queue := st.queue + [name])
  }

  // ---------------------------------------------------------------- what every run keeps

  /** How often each name stands in the lists of all pollers. */
  function Assigned(pollers: seq<Poller>): (r: multiset<string>) {
    if pollers == [] then multiset{} else multiset(pollers[0].agents) + Assigned(pollers[1..])
  }

  /** All names the tables know of. */
  function Known(st: State): (r: set<string>) {
    st.hadb + Names(st.queue)
  }

  /** Every name in the database stands exactly once in exactly one list, and no other name does. */
  ghost predicate Consistent(st: State) {
    Assigned(st.pollers) == multiset(st.hadb)
  }

  ghost predicate Sound(st: State) {
    && Consistent(st)
    && (st.pollers != [] ==> st.queue == [])
    && Ordered(st.pollers)
  }

  lemma {:induction false} AssignedAfterGive(pollers: seq<Poller>, i: nat, name: string)
    requires i < |pollers|
    ensures Assigned(GiveTo(pollers, i, name)) == Assigned(pollers) + multiset{name}
  {
    var after := GiveTo(pollers, i, name);
    if i == 0 {
      assert after[1..] == pollers[1..];
    } else {
      AssignedAfterGive(pollers[1..], i - 1, name);
      assert after[1..] == GiveTo(pollers[1..], i - 1, name);
    }
  }

  lemma {:induction false} AssignedAfterRemove(pollers: seq<Poller>, i: nat)
    requires i < |pollers|
    ensures Assigned(pollers[..i] + pollers[i + 1..]) + multiset(pollers[i].agents) == Assigned(pollers)
  {
    var after := pollers[..i] + pollers[i + 1..];
    if i == 0 {
      assert after == pollers[1..];
    } else {
      AssignedAfterRemove(pollers[1..], i - 1);
      assert after[1..] == pollers[1..][..i - 1] + pollers[1..][i..];
      assert pollers[1..][i - 1] == pollers[i];
    }
  }

  lemma {:induction false} AssignedAfterInsert(pollers: seq<Poller>, id: nat)
    ensures Assigned(InsertPoller(pollers, id)) == Assigned(pollers)
    ensures InsertPoller(pollers, id) != []
  {
    if pollers == [] || id < pollers[0].id {
      var after := [Poller(id, [])] + pollers;
      assert after[1..] == pollers;
    } else if id != pollers[0].id {
      AssignedAfterInsert(pollers[1..], id);
      var after := [pollers[0]] + InsertPoller(pollers[1..], id);
      assert after[1..] == InsertPoller(pollers[1..], id);
    }
  }

  ghost predicate Ordered(pollers: seq<Poller>) {
    forall i, j :: 0 <= i < j < |pollers| ==> pollers[i].id < pollers[j].id
  }

  lemma {:induction false} InsertStaysAbove(pollers: seq<Poller>, id: nat, lower: nat)
    requires lower < id && forall k :: 0 <= k < |pollers| ==> lower < pollers[k].id
    ensures forall k :: 0 <= k < |InsertPoller(pollers, id)| ==> lower < InsertPoller(pollers, id)[k].id
  {
    if pollers != [] && id > pollers[0].id {
      InsertStaysAbove(pollers[1..], id, lower);
    }
  }

  lemma {:induction false} InsertKeepsOrder(pollers: seq<Poller>, id: nat)
    requires Ordered(pollers)
    ensures Ordered(InsertPoller(pollers, id))
  {
    if pollers != [] && id > pollers[0].id {
      InsertKeepsOrder(pollers[1..], id);
      InsertStaysAbove(pollers[1..], id, pollers[0].id);
      var rest := InsertPoller(pollers[1..], id);
      assert InsertPoller(pollers, id) == [pollers[0]] + rest;
    }
  }

  predicate Registered(pollers: seq<Poller>, id: nat) {
    Find(pollers, id) < |pollers|
  }

  lemma RegisteredStep(pollers: seq<Poller>, id: nat)
    requires pollers != [] && Ordered(pollers)
    ensures Registered(pollers, id) <==> pollers[0].id == id || Registered(pollers[1..], id)
    ensures id < pollers[0].id ==> !Registered(pollers, id)
  {
  }

  lemma MultisetOfFront(p: Poller, rest: seq<Poller>)
    ensures multiset([p] + rest) == multiset{p} + multiset(rest)
  {
  }

  /** Inserting adds one empty entry for a new poller and leaves the others and a known poller alone. */
  lemma {:induction false} InsertMeaning(pollers: seq<Poller>, id: nat)
    requires Ordered(pollers)
    ensures multiset(InsertPoller(pollers, id)) ==
      multiset(pollers) + if Registered(pollers, id) then multiset{} else multiset{Poller(id, [])}
  {
    MultisetOfFront(Poller(id, []), pollers);
    if pollers != [] {
      RegisteredStep(pollers, id);
      hide Registered;
      assert pollers == [pollers[0]] + pollers[1..];
      if id > pollers[0].id {
        InsertMeaning(pollers[1..], id);
        hide Ordered;
        MultisetOfFront(pollers[0], pollers[1..]);
        MultisetOfFront(pollers[0], InsertPoller(pollers[1..], id));
      }
    }
  }

  lemma AssignKeepsConsistent(st: State, name: string)
    requires st.pollers != [] && Consistent(st)
    ensures Consistent(Assign(st, name))
    ensures Assign(st, name).hadb == st.hadb + {name}
    ensures forall i :: 0 <= i < |st.pollers| ==> Assign(st, name).pollers[i].id == st.pollers[i].id
  {
    if name !in st.hadb {
      AssignedAfterGive(st.pollers, LeastLoadedPoller(st.pollers, |st.pollers|), name);
      assert multiset(st.hadb + {name}) == multiset(st.hadb) + multiset{name};
    }
  }

  /** Processing the queue with a poller connected empties it into the database, losing no name. */
  lemma {:induction false} ProcessQueueMeaning(st: State)
    requires Consistent(st)
    ensures var r := ProcessQueue(st);
      && Consistent(r)
      && (st.pollers == [] ==> r == st)
      && (st.pollers != [] ==> r.queue == [] && r.hadb == st.hadb + Names(st.queue))
      && |r.pollers| == |st.pollers|
      && (forall i :: 0 <= i < |st.pollers| ==> r.pollers[i].id == st.pollers[i].id)
    decreases |st.queue|
  {
    if st.queue != [] && st.pollers != [] {
      AssignKeepsConsistent(st, st.queue[0]);
      ProcessQueueMeaning(Assign(st, st.queue[0]).(queue := st.queue[1..]));
      assert Names(st.queue) == {st.queue[0]} + Names(st.queue[1..]);
    }
  }

  datatype Op = PollerConnected(id: nat) | PollerDisconnected(id: nat) | HomeAgentAdded(name: string)

  /** A poller that is not registered does not disconnect. */
  predicate Possible(st: State, op: Op) {
    op.PollerDisconnected? ==> Registered(st.pollers, op.id)
  }

  function Next(st: State, op: Op): (r: State)
    requires Possible(st, op)
  {
    match op
    case PollerConnected(id) => Connect(st, id)
    case PollerDisconnected(id) => Disconnect(st, id)
    case HomeAgentAdded(name) => AddAgent(st, name)
  }

  function Added(op: Op): (r: set<string>) {
    if op.HomeAgentAdded? then {op.name} else {}
  }

  lemma ConnectKeeps(st: State, id: nat)
    requires Sound(st)
    ensures Sound(Connect(st, id))
    ensures Known(Connect(st, id)) == Known(st)
  {
    AssignedAfterInsert(st.pollers, id);
    InsertKeepsOrder(st.pollers, id);
    ProcessQueueMeaning(st.(pollers := InsertPoller(st.pollers, id)));
  }

  lemma DisconnectKeeps(st: State, id: nat)
    requires Sound(st) && Registered(st.pollers, id)
    ensures Sound(Disconnect(st, id))
    ensures Known(Disconnect(st, id)) == Known(st)
  {
    var i := Find(st.pollers, id);
    RequeueKeeps(st, i);
    ProcessQueueMeaning(Requeue(st, i));
  }

  lemma RequeueKeeps(st: State, i: nat)
    requires Sound(st) && i < |st.pollers|
    ensures Consistent(Requeue(st, i))
    ensures Ordered(Requeue(st, i).pollers)
    ensures Known(Requeue(st, i)) == Known(st)
  {
    AssignedAfterRemove(st.pollers, i);
    OrderedAfterRemove(st.pollers, i);
    hide Assigned, Names, Ordered;
    TakeOut(Assigned(st.pollers[..i] + st.pollers[i + 1..]), st.pollers[i].agents, st.hadb);
    KnownAfterMove(st, st.pollers[i].agents);
  }

  lemma KnownAfterMove(st: State, agents: seq<string>)
    requires st.queue == [] && Names(agents) <= st.hadb
    ensures st.hadb - Names(agents) + Names(st.queue + agents) == st.hadb + Names(st.queue)
  {
    assert st.queue + agents == agents;
  }

  lemma OrderedAfterRemove(pollers: seq<Poller>, i: nat)
    requires Ordered(pollers) && i < |pollers|
    ensures Ordered(pollers[..i] + pollers[i + 1..])
  {
  }

  /** Taking one list out of tables in which every name stands once takes its names out of the set. */
  lemma TakeOut(rest: multiset<string>, agents: seq<string>, hadb: set<string>)
    requires rest + multiset(agents) == multiset(hadb)
    ensures Names(agents) <= hadb && rest == multiset(hadb - Names(agents))
  {
    forall a: string
      ensures a in agents ==> a in hadb
      ensures rest[a] == multiset(hadb - Names(agents))[a]
    {
      assert rest[a] + multiset(agents)[a] == multiset(hadb)[a];
      assert a in agents <==> multiset(agents)[a] > 0;
    }
  }

  /** Every step keeps the tables sound and forgets no name that was ever added. */
  lemma StepKeeps(st: State, op: Op)
    requires Sound(st) && Possible(st, op)
    ensures Sound(Next(st, op))
    ensures Known(Next(st, op)) == Known(st) + Added(op)
  {
    hide Connect, Disconnect, Known, Sound;
    match op {
      case PollerConnected(id) => ConnectKeeps(st, id);
      case PollerDisconnected(id) => DisconnectKeeps(st, id);
      case HomeAgentAdded(name) => AddKeeps(st, name);
    }
  }

  lemma AddKeeps(st: State, name: string)
    requires Sound(st)
    ensures Sound(AddAgent(st, name))
    ensures Known(AddAgent(st, name)) == Known(st) + {name}
  {
    if st.pollers != [] {
      hide Assign;
      AssignKeepsConsistent(st, name);
    } else {
      assert Names(st.queue + [name]) == Names(st.queue) + {name};
    }
  }

  function NextIfPossible(st: State, op: Op): (r: State) {
    if Possible(st, op) then Next(st, op) else st
  }

  function Run(st: State, ops: seq<Op>): (r: State)
    decreases |ops|
  {
    if ops == [] then st else Run(NextIfPossible(st, ops[0]), ops[1..])
  }

  function EverAdded(ops: seq<Op>): (r: set<string>) {
    if ops == [] then {} else Added(ops[0]) + EverAdded(ops[1..])
  }

  const START := State([], {}, [], [])

  lemma {:induction false} RunKeeps(st: State, ops: seq<Op>)
    requires Sound(st)
    ensures Sound(Run(st, ops))
    ensures Known(Run(st, ops)) == Known(st) + EverAdded(ops)
    decreases |ops|
  {
    hide Sound, NextIfPossible, Known, Added;
    if ops != [] {
      NextIfPossibleKeeps(st, ops[0]);
      RunKeeps(NextIfPossible(st, ops[0]), ops[1..]);
    }
  }

  lemma NextIfPossibleKeeps(st: State, op: Op)
    requires Sound(st)
    ensures Sound(NextIfPossible(st, op))
    ensures Known(NextIfPossible(st, op)) == Known(st) + Added(op)
  {
    hide Sound, Next, Known;
    if Possible(st, op) {
      StepKeeps(st, op);
    }
  }

  /**
   After every run: with a poller connected the queue is empty and the names ever added are exactly
   those in the database, each in one list once; with none connected the database is empty and they
   are exactly the queued ones.
   */
  lemma NamesAreAssignedOrQueued(ops: seq<Op>)
    ensures var st := Run(START, ops);
      && Assigned(st.pollers) == multiset(st.hadb)
      && (st.pollers != [] ==> st.queue == [] && st.hadb == EverAdded(ops))
      && (st.pollers == [] ==> st.hadb == {} && Names(st.queue) == EverAdded(ops))
  {
    RunKeeps(START, ops);
    var st := Run(START, ops);
    if st.pollers == [] {
      assert forall a :: a in st.hadb ==> a in multiset(st.hadb);
    }
  }

  /** What "exactly once" means for positions: a database name stands in one place, and only there. */
  lemma {:induction false} OnePlace(pollers: seq<Poller>, name: string)
    requires Assigned(pollers)[name] == 1
    ensures exists i, k :: 0 <= i < |pollers| && 0 <= k < |pollers[i].agents| && pollers[i].agents[k] == name
    ensures forall i, j :: 0 <= i < j < |pollers| ==> !(name in pollers[i].agents && name in pollers[j].agents)
  {
    var rest := pollers[1..];
    if name in pollers[0].agents {
      var k :| 0 <= k < |pollers[0].agents| && pollers[0].agents[k] == name;
      assert name in multiset(pollers[0].agents);
      NowhereAssigned(rest, name);
      forall i, j | 0 <= i < j < |pollers|
        ensures !(name in pollers[i].agents && name in pollers[j].agents)
      {
        assert pollers[j] == rest[j - 1];
      }
    } else {
      assert name !in multiset(pollers[0].agents);
      OnePlace(rest, name);
      var i, k :| 0 <= i < |rest| && 0 <= k < |rest[i].agents| && rest[i].agents[k] == name;
      assert pollers[i + 1] == rest[i];
      forall a, b | 0 <= a < b < |pollers|
        ensures !(name in pollers[a].agents && name in pollers[b].agents)
      {
        if a > 0 {
          assert pollers[a] == rest[a - 1] && pollers[b] == rest[b - 1];
        }
      }
    }
  }

  lemma {:induction false} NowhereAssigned(pollers: seq<Poller>, name: string)
    requires Assigned(pollers)[name] == 0
    ensures forall i :: 0 <= i < |pollers| ==> name !in pollers[i].agents
  {
    if pollers != [] {
      NowhereAssigned(pollers[1..], name);
      assert name !in multiset(pollers[0].agents);
      assert forall i :: 1 <= i < |pollers| ==> pollers[i] == pollers[1..][i - 1];
    }
  }

  // ---------------------------------------------------------------- what the pollers are told

  /** Every agent on a poller's list has been sent to that poller. */
  ghost predicate AllTold(pollers: seq<Poller>, told: seq<(nat, string)>) {
    forall p, a :: p in pollers && a in p.agents ==> (p.id, a) in told
  }

  lemma AssignTells(st: State, name: string)
    requires st.pollers != [] && AllTold(st.pollers, st.told)
    ensures AllTold(Assign(st, name).pollers, Assign(st, name).told)
  {
    var min := LeastLoadedPoller(st.pollers, |st.pollers|);
    var r := Assign(st, name);
    forall p, a | p in r.pollers && a in p.agents
      ensures (p.id, a) in r.told
    {
      if name !in st.hadb && p !in st.pollers {
        assert p == st.pollers[min].(agents := st.pollers[min].agents + [name]);
        assert a == name || a in st.pollers[min].agents;
      }
    }
  }

  lemma {:induction false} ProcessQueueTells(st: State)
    requires AllTold(st.pollers, st.told)
    ensures AllTold(ProcessQueue(st).pollers, ProcessQueue(st).told)
    decreases |st.queue|
  {
    hide Assign, AllTold;
    if st.queue != [] && st.pollers != [] {
      AssignTells(st, st.queue[0]);
      ProcessQueueTells(Assign(st, st.queue[0]).(queue := st.queue[1..]));
    }
  }

  lemma {:induction false} InsertedOrPresent(pollers: seq<Poller>, id: nat, p: Poller)
    requires p in InsertPoller(pollers, id)
    ensures p in pollers || p == Poller(id, [])
  {
    if pollers != [] && id > pollers[0].id && p != pollers[0] {
      InsertedOrPresent(pollers[1..], id, p);
    }
  }

  lemma NextTells(st: State, op: Op)
    requires Possible(st, op) && AllTold(st.pollers, st.told)
    ensures AllTold(Next(st, op).pollers, Next(st, op).told)
  {
    hide Assign, ProcessQueue;
    match op {
      case PollerConnected(id) =>
        forall p | p in InsertPoller(st.pollers, id)
          ensures p in st.pollers || p == Poller(id, [])
        {
          InsertedOrPresent(st.pollers, id, p);
        }
        ProcessQueueTells(st.(pollers := InsertPoller(st.pollers, id)));
      case PollerDisconnected(id) =>
        ProcessQueueTells(Requeue(st, Find(st.pollers, id)));
      case HomeAgentAdded(name) =>
        if st.pollers != [] {
          AssignTells(st, name);
        }
    }
  }

  /** After every run each poller has been sent every agent on its list. */
  lemma {:induction false} PollersAreTold(st: State, ops: seq<Op>)
    requires AllTold(st.pollers, st.told)
    ensures AllTold(Run(st, ops).pollers, Run(st, ops).told)
    decreases |ops|
  {
    hide AllTold, Next;
    if ops != [] {
      if Possible(st, ops[0]) {
        NextTells(st, ops[0]);
      }
      PollersAreTold(NextIfPossible(st, ops[0]), ops[1..]);
    }
  }

  /** An assignment, in full: the first poller with the shortest list gets the name and is the only one told. */
  lemma AssignMeaning(st: State, name: string, i: nat)
    requires st.pollers != [] && name !in st.hadb
    requires i < |st.pollers| && forall j :: 0 <= j < |st.pollers| ==> |st.pollers[i].agents| <= |st.pollers[j].agents|
    requires forall j :: 0 <= j < i ==> |st.pollers[i].agents| < |st.pollers[j].agents|
    ensures var r := Assign(st, name);
      && r.told == st.told + [(st.pollers[i].id, name)] && r.hadb == st.hadb + {name} && r.queue == st.queue
      && r.pollers == st.pollers[i := Poller(st.pollers[i].id, st.pollers[i].agents + [name])]
  {
    var min := LeastLoadedPoller(st.pollers, |st.pollers|);
    hide LeastLoadedPoller;
    assert min == i;
  }

  /** The names of a queue that are new, each where it occurs first. */
  function NewNames(queue: seq<string>, known: set<string>): (r: seq<string>) {
    if queue == [] then []
    else if queue[0] in known then NewNames(queue[1..], known)
    else [queue[0]] + NewNames(queue[1..], known + {queue[0]})
  }

  function NamesTold(told: seq<(nat, string)>): (r: seq<string>)
    ensures |r| == |told|
  {
    seq(|told|, k requires 0 <= k < |told| => told[k].1)
  }

  /** From position `from` on, each message went to the poller that has the name on its list. */
  ghost predicate ToldFrom(pollers: seq<Poller>, told: seq<(nat, string)>, from: nat) {
    forall k :: from <= k < |told| ==> IsOnList(pollers, told[k])
  }

  predicate IsOnList(pollers: seq<Poller>, message: (nat, string)) {
    exists i :: 0 <= i < |pollers| && IsAssignment(pollers[i], message)
  }

  predicate IsAssignment(p: Poller, message: (nat, string)) {
    p.id == message.0 && message.1 in p.agents
  }

  lemma AssignKeepsTold(st: State, name: string, from: nat)
    requires st.pollers != [] && from <= |st.told| && ToldFrom(st.pollers, st.told, from)
    ensures ToldFrom(Assign(st, name).pollers, Assign(st, name).told, from)
  {
    var r := Assign(st, name);
    forall k | from <= k < |r.told|
      ensures IsOnList(r.pollers, r.told[k])
    {
      if k < |st.told| {
        assert r.told[k] == st.told[k] && IsOnList(st.pollers, st.told[k]);
        var i :| 0 <= i < |st.pollers| && IsAssignment(st.pollers[i], st.told[k]);
        assert IsAssignment(r.pollers[i], r.told[k]);
      } else {
        assert IsAssignment(r.pollers[LeastLoadedPoller(st.pollers, |st.pollers|)], r.told[k]);
      }
    }
  }

  /**
   Processing the queue sends out exactly the new names, once each and in the order of the queue, and
   each to the poller that has the name on its list afterwards.
   */
  lemma {:induction false} QueueIsToldInOrder(st: State, from: nat)
    requires st.pollers != [] && from <= |st.told| && ToldFrom(st.pollers, st.told, from)
    ensures var r := ProcessQueue(st);
      && st.told <= r.told && NamesTold(r.told[|st.told|..]) == NewNames(st.queue, st.hadb)
      && ToldFrom(r.pollers, r.told, from)
    decreases |st.queue|
  {
    if st.queue == [] {
      assert NamesTold(st.told[|st.told|..]) == [];
    } else {
      var next := Assign(st, st.queue[0]).(queue := st.queue[1..]);
      AssignKeepsTold(st, st.queue[0], from);
      hide ToldFrom;
      QueueIsToldInOrder(next, from);
      var r := ProcessQueue(next);
      hide ProcessQueue;
      if st.queue[0] !in st.hadb {
        assert r.told[|st.told|] == next.told[|st.told|];
        assert r.told[|st.told|..] == [r.told[|st.told|]] + r.told[|next.told|..];
        assert NamesTold(r.told[|st.told|..]) == [st.queue[0]] + NamesTold(r.told[|next.told|..]);
      }
    }
  }

  /** The names that a step has to hand out, in order: those of a lost poller behind those that wait. */
  function ToHandOut(st: State, op: Op): (names: seq<string>)
    requires Possible(st, op)
  {
    match op
    case PollerConnected(_) => st.queue
    case PollerDisconnected(id) => st.queue + st.pollers[Find(st.pollers, id)].agents
    case HomeAgentAdded(name) => st.queue + [name]
  }

  function StillAssigned(st: State, op: Op): (names: set<string>)
    requires Possible(st, op)
  {
    if op.PollerDisconnected? then st.hadb - Names(st.pollers[Find(st.pollers, op.id)].agents) else st.hadb
  }

  /**
   What each step tells the pollers, and what it leaves waiting: with a poller connected afterwards the
   new ones among the names to hand out, once each, in order, and each to the poller that gets it; with
   none connected nothing, and exactly these names wait in this order.
   */
  lemma StepTellsExactly(st: State, op: Op)
    requires Sound(st) && Possible(st, op)
    ensures var r := Next(st, op);
      && st.told <= r.told
      && (r.pollers != [] ==>
            && r.queue == [] && NamesTold(r.told[|st.told|..]) == NewNames(ToHandOut(st, op), StillAssigned(st, op))
            && ToldFrom(r.pollers, r.told, |st.told|))
      && (r.pollers == [] ==> r.told == st.told && r.queue == ToHandOut(st, op))
  {
    match op {
      case PollerConnected(id) =>
        AssignedAfterInsert(st.pollers, id);
        hide InsertPoller;
        ProcessTellsExactly(st.(pollers := InsertPoller(st.pollers, id)));
      case PollerDisconnected(id) =>
        RequeueKeeps(st, Find(st.pollers, id));
        ProcessTellsExactly(Requeue(st, Find(st.pollers, id)));
      case HomeAgentAdded(name) =>
        if st.pollers != [] {
          AddIsProcessing(st, name);
          ProcessTellsExactly(st.(queue := [name]));
        }
    }
    hide Sound, ProcessQueue, NewNames, ToldFrom, InsertPoller;
  }

  lemma ProcessTellsExactly(st: State)
    requires Consistent(st)
    ensures var r := ProcessQueue(st);
      && st.told <= r.told && |r.pollers| == |st.pollers|
      && (st.pollers != [] ==>
            && r.queue == [] && NamesTold(r.told[|st.told|..]) == NewNames(st.queue, st.hadb)
            && ToldFrom(r.pollers, r.told, |st.told|))
      && (st.pollers == [] ==> r == st)
  {
    ProcessQueueMeaning(st);
    if st.pollers != [] {
      QueueIsToldInOrder(st, |st.told|);
    }
    hide ProcessQueue, Consistent, NewNames;
  }

  /** With a poller connected, adding a name is processing a queue that holds just that name. */
  lemma AddIsProcessing(st: State, name: string)
    requires st.pollers != [] && st.queue == []
    ensures ProcessQueue(st.(queue := [name])) == Assign(st, name)
  {
    var waiting := st.(queue := [name]);
    assert [name][1..] == [];
    assert Assign(waiting, name).(queue := []) == Assign(st, name);
    assert ProcessQueue(waiting) == ProcessQueue(Assign(waiting, name).(queue := []));
  }

  // ---------------------------------------------------------------- how well the load is spread

  lemma AssignBalances(st: State, name: string, floor: nat)
    requires st.pollers != []
    requires var l := Loads(st.pollers); IsBest(Max(l), floor, Total(l), |l|)
    ensures var l, r := Loads(st.pollers), Loads(Assign(st, name).pollers);
      && IsBest(Max(r), floor, Total(r), |r|)
      && Max(r) - Min(r) <= (if Max(l) - Min(l) <= 1 then 1 else Max(l) - Min(l))
      && Total(r) == Total(l) + (if name in st.hadb then 0 else 1)
      && forall i :: 0 <= i < |l| ==> l[i] <= r[i]
  {
    hide Total, Max, Min;
    if name !in st.hadb {
      var l, min := Loads(st.pollers), LeastLoadedPoller(st.pollers, |st.pollers|);
      LoadsAfterGive(st.pollers, min, name);
      assert IsFirstLeast(l, min);
      hide IsBest;
      IncrementLeast(l, min, floor);
    }
  }

  lemma LoadsAfterGive(pollers: seq<Poller>, i: nat, name: string)
    requires i < |pollers|
    ensures Loads(GiveTo(pollers, i, name)) == Loads(pollers)[i := Loads(pollers)[i] + 1]
  {
  }

  lemma {:induction false} QueueBalances(st: State, floor: nat)
    requires st.pollers != []
    requires var l := Loads(st.pollers); IsBest(Max(l), floor, Total(l), |l|)
    ensures var l, r := Loads(st.pollers), Loads(ProcessQueue(st).pollers);
      && |r| == |l|
      && IsBest(Max(r), floor, Total(r), |r|)
      && Max(r) - Min(r) <= (if Max(l) - Min(l) <= 1 then 1 else Max(l) - Min(l))
      && forall i :: 0 <= i < |l| ==> l[i] <= r[i]
    decreases |st.queue|
  {
    hide Loads, Max, Min, Total, IsBest;
    if st.queue != [] {
      AssignBalances(st, st.queue[0], floor);
      QueueBalances(Assign(st, st.queue[0]).(queue := st.queue[1..]), floor);
    }
  }

  /**
   From any loads, processing any queue leaves as maximum exactly the old maximum or the average
   rounded up, whichever is larger, and a spread of at most max(1, spread before); and no placement
   of the same agents that keeps the existing assignments has a smaller maximum.
   */
  lemma QueueProcessingIsOptimal(st: State, other: seq<nat>)
    requires st.pollers != []
    requires |other| == |st.pollers| && Total(other) == Total(Loads(ProcessQueue(st).pollers))
    requires forall i :: 0 <= i < |other| ==> Loads(st.pollers)[i] <= other[i]
    ensures var l, r, m := Loads(st.pollers), Loads(ProcessQueue(st).pollers), |st.pollers|;
      && |r| == m
      && Max(r) == (if Max(l) >= CeilDiv(Total(r), m) then Max(l) else CeilDiv(Total(r), m))
      && Max(r) - Min(r) <= (if Max(l) - Min(l) <= 1 then 1 else Max(l) - Min(l))
      && Max(r) <= Max(other)
  {
    var l := Loads(st.pollers);
    AlreadyBest(l);
    QueueBalances(st, Max(l));
    var r := Loads(ProcessQueue(st).pollers);
    BestIsFormula(Max(r), Max(l), Total(r), |r|);
    NoPlacementIsBetter(l, other, Max(r));
  }

  // ---------------------------------------------------------------- the code

  class HomeAgentDb {
    var pollerq: seq<string>
    var hadb: set<string>
    var pollerdb: seq<Poller>
    ghost var told: seq<(nat, string)>

    ghost function Tables(): State
      reads this
    {
      State(pollerq, hadb, pollerdb, told)
    }

    constructor ()
      ensures Tables() == START
    {
      pollerq, hadb, pollerdb, told := [], {}, [], [];
    }

    method AssignHomeAgent(name: string)
      requires pollerdb != []
      modifies this
      ensures Tables() == Assign(old(Tables()), name)
    {
      if name !in hadb {
        hadb := hadb + {name};
        var min, i := 0, 0;
        while i < |pollerdb|
          invariant 0 <= i <= |pollerdb| && min < |pollerdb|
          invariant min == if i == 0 then 0 else LeastLoadedPoller(pollerdb, i)
        {
          if |pollerdb[i].agents| < |pollerdb[min].agents| {
            min := i;
          }
          i := i + 1;
        }
        told := told + [(pollerdb[min].id, name)];
        pollerdb := pollerdb[min := pollerdb[min].(agents := pollerdb[min].agents + [name])];
      }
    }

    /** The front is assigned before it is popped. */
    method ProcessPollerQueue()
      modifies this
      ensures Tables() == ProcessQueue(old(Tables()))
    {
      while pollerq != [] && pollerdb != []
        invariant ProcessQueue(Tables()) == ProcessQueue(old(Tables()))
        decreases |pollerq|
      {
        AssignHomeAgent(pollerq[0]);
        pollerq := pollerq[1..];
      }
    }

    method OnPollerConnected(id: nat)
      modifies this
      ensures Tables() == Connect(old(Tables()), id)
    {
      pollerdb := InsertPoller(pollerdb, id);
      ProcessPollerQueue();
    }

    method OnPollerDisconnected(id: nat)
      requires Registered(pollerdb, id)
      modifies this
      ensures Tables() == Disconnect(old(Tables()), id)
    {
      var p := Find(pollerdb, id);
      var halist := pollerdb[p].agents;
      var i := 0;
      while i < |halist|
        invariant 0 <= i <= |halist| && pollerdb == old(pollerdb) && told == old(told)
        invariant pollerq == old(pollerq) + halist[..i]
        invariant hadb == old(hadb) - Names(halist[..i])
      {
        assert halist[..i + 1] == halist[..i] + [halist[i]];
        pollerq := pollerq + [halist[i]];
        hadb := hadb - {halist[i]};
        i := i + 1;
      }
      assert halist[..i] == halist;
      pollerdb := pollerdb[..p] + pollerdb[p + 1..];
      assert Tables() == Requeue(old(Tables()), p);
      ProcessPollerQueue();
    }

    method OnHomeAgentDiscovered(name: string)
      modifies this
      ensures Tables() == AddAgent(old(Tables()), name)
    {
      if pollerdb != [] {
        AssignHomeAgent(name);
      } else {
        pollerq := pollerq + [name];
      }
    }
  }
}
