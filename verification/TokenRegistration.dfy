/**
 Token-limited registration in the test client: agents request connection tokens, register one name
 per live connection, and wait in a callback queue when tokens run out. A released token runs the
 waiting callbacks, which may put themselves back at the end of the queue they are run from.
 */
module TokenRegistration {
  import opened Shared

  /**
   One ha_register. `live` counts the registrations under way, `succeeded` and `failed` those that
   have ended, and `issued` lists the name indices used so far, in order.
   */
  datatype Agent = Agent(
    maxConns: nat, numNames: nat, active: nat, nameNum: nat, live: nat, succeeded: nat, failed: nat, issued: seq<nat>)

  function NewAgent(maxConns: nat, numNames: nat): (r: Agent) {
    Agent(maxConns, numNames, 0, numNames, 0, 0, 0, [])
  }

  /** numtokens_, the callback queue as indices of the agents whose async_run is queued, and the agents. */
  datatype System = System(tokens: nat, waiting: seq<nat>, agents: seq<Agent>)

  function Smaller(a: nat, b: nat): (m: nat) {
    if a < b then a else b
  }

  /** register_name */
  function RegisterOne(ag: Agent): (r: Agent)
    requires ag.nameNum > 0
  {
    ag.(nameNum := ag.nameNum - 1, live := ag.live + 1, issued := ag.issued + [ag.nameNum - 1])
  }

  function RegisterMany(ag: Agent, n: nat): (r: Agent)
    requires n <= ag.nameNum
    ensures r.nameNum == ag.nameNum - n && r.live == ag.live + n
    ensures r.active == ag.active && r.maxConns == ag.maxConns && r.numNames == ag.numNames
    ensures r.succeeded == ag.succeeded && r.failed == ag.failed
  {
    if n == 0 then ag else RegisterOne(RegisterMany(ag, n - 1))
  }

  function Requested(ag: Agent): (n: nat)
    requires ag.active <= ag.maxConns
  {
    Smaller(ag.maxConns - ag.active, ag.nameNum)
  }

  predicate WithinLimits(sys: System) {
    && (forall a :: 0 <= a < |sys.agents| ==> sys.agents[a].active <= sys.agents[a].maxConns)
    && (forall k :: 0 <= k < |sys.waiting| ==> sys.waiting[k] < |sys.agents|)
  }

  /** async_run */
  function AsyncRun(sys: System, a: nat): (r: System)
    requires WithinLimits(sys) && a < |sys.agents|
    ensures WithinLimits(r) && |r.agents| == |sys.agents|
    ensures r.tokens == 0 || r.waiting == sys.waiting
    ensures |r.waiting| <= |sys.waiting| + 1
  {
    var ag := sys.agents[a];
    var requested := Requested(ag);
    var received := Smaller(requested, sys.tokens);
    var ran := RegisterMany(ag, received);
    System(sys.tokens - received,
           if received < requested then sys.waiting + [a] else sys.waiting,
           sys.agents[a := ran.(active := ran.active + received)])
  }

  /**
   notify: runs the front callback, then pops it. A callback that queues itself again has used up the
   tokens, so the loop ends although the queue need not get shorter.
   */
  function Notify(sys: System): (r: System)
    requires WithinLimits(sys)
    ensures WithinLimits(r) && |r.agents| == |sys.agents|
    decreases if sys.tokens == 0 then 0 else |sys.waiting|
  {
    if sys.tokens == 0 || sys.waiting == [] then sys else
      var ran := AsyncRun(sys, sys.waiting[0]);
      Notify(ran.(waiting := ran.waiting[1..]))
  }

  function Release(sys: System, n: nat): (r: System)
    requires WithinLimits(sys)
  {
    Notify(sys.(tokens := sys.tokens + n))
  }

  /** A live registration of the agent has ended. */
  function Ended(ag: Agent, ok: bool): (r: Agent)
    requires ag.live > 0
  {
    if ok then ag.(live := ag.live - 1, succeeded := ag.succeeded + 1)
    else ag.(live := ag.live - 1, failed := ag.failed + 1)
  }

  /** handle_register_name: a finished registration of agent a, well or badly. */
  function Complete(sys: System, a: nat, ok: bool): (r: System)
    requires WithinLimits(sys) && a < |sys.agents| && sys.agents[a].live > 0
  {
    var done := Ended(sys.agents[a], ok);
    if ok && done.nameNum > 0 then sys.(agents := sys.agents[a := RegisterOne(done)])
    else Release(sys.(agents := sys.agents[a := done]), 1)
  }

  /** register_names for one more agent. */
  function Join(sys: System, maxConns: nat, numNames: nat): (r: System)
    requires WithinLimits(sys)
  {
    AsyncRun(sys.(agents := sys.agents + [NewAgent(maxConns, numNames)]), |sys.agents|)
  }

  // ---------------------------------------------------------------- who is served

  /**
   async_run, in full: n registrations start, as many as the agent's connections, names and the free
   tokens allow, with the next lower names; and the agent queues up behind all others exactly when only
   the tokens kept it from more.
   */
  lemma AsyncRunMeaning(sys: System, a: nat, n: nat)
    requires WithinLimits(sys) && a < |sys.agents|
    requires var ag := sys.agents[a];
      && n <= ag.maxConns - ag.active && n <= ag.nameNum && n <= sys.tokens
      && (n == ag.maxConns - ag.active || n == ag.nameNum || n == sys.tokens)
    ensures var ag, r := sys.agents[a], AsyncRun(sys, a);
      && r.tokens == sys.tokens - n
      && r.waiting == sys.waiting + (if n < ag.maxConns - ag.active && n < ag.nameNum then [a] else [])
      && |r.agents| == |sys.agents| && (forall b :: 0 <= b < |sys.agents| && b != a ==> r.agents[b] == sys.agents[b])
      && r.agents[a] == ag.(active := ag.active + n, live := ag.live + n, nameNum := ag.nameNum - n,
                            issued := ag.issued + Downwards(ag.nameNum, n))
  {
    RegisterManyMeaning(sys.agents[a], n);
    assert sys.waiting + [] == sys.waiting;
    hide RegisterMany, Downwards;
  }

  /** The n numbers below `top`, from the highest down. */
  function Downwards(top: nat, n: nat): (r: seq<nat>)
    requires n <= top
  {
    seq(n, k requires 0 <= k < n => top - 1 - k)
  }

  lemma {:induction false} RegisterManyMeaning(ag: Agent, n: nat)
    requires n <= ag.nameNum
    ensures RegisterMany(ag, n) ==
      ag.(live := ag.live + n, nameNum := ag.nameNum - n, issued := ag.issued + Downwards(ag.nameNum, n))
  {
    if n == 0 {
      assert ag.issued + [] == ag.issued;
    } else {
      RegisterManyMeaning(ag, n - 1);
      assert Downwards(ag.nameNum, n) == Downwards(ag.nameNum, n - 1) + [ag.nameNum - n];
      assert ag.issued + Downwards(ag.nameNum, n) == (ag.issued + Downwards(ag.nameNum, n - 1)) + [ag.nameNum - n];
    }
  }

  /**
   notify serves the waiters in the order in which they came: some number of them from the front are
   served, the last of these alone may be back, at the end of the queue, and the loop stops only
   without waiters or without tokens.
   */
  lemma {:induction false} NotifyServesInOrder(sys: System) returns (served: nat)
    requires WithinLimits(sys)
    ensures served <= |sys.waiting|
    ensures var r := Notify(sys);
      && (r.waiting == sys.waiting[served..]
          || (served > 0 && r.waiting == sys.waiting[served..] + [sys.waiting[served - 1]]))
      && (r.waiting == [] || r.tokens == 0)
    decreases if sys.tokens == 0 then 0 else |sys.waiting|
  {
    if sys.tokens == 0 || sys.waiting == [] {
      served := 0;
    } else {
      var a, popped := sys.waiting[0], sys.waiting[1..];
      var next := AsyncRun(sys, a);
      next := next.(waiting := next.waiting[1..]);
      NextInLine(sys);
      var more := NotifyServesInOrder(next);
      hide AsyncRun;
      if next.tokens == 0 {
        served := 1;
        assert Notify(next) == next;
      } else {
        served := more + 1;
        assert popped[more..] == sys.waiting[served..];
      }
    }
  }

  /** The front waiter is off the queue, or at its end when it has used up the tokens. */
  lemma NextInLine(sys: System)
    requires WithinLimits(sys) && sys.waiting != []
    ensures var ran := AsyncRun(sys, sys.waiting[0]);
      && ran.waiting != []
      && (ran.waiting[1..] == sys.waiting[1..] || (ran.tokens == 0 && ran.waiting[1..] == sys.waiting[1..] + [sys.waiting[0]]))
  {
    hide RegisterMany;
  }

  // ---------------------------------------------------------------- what every step keeps

  function LiveTotal(agents: seq<Agent>): (n: nat) {
    if agents == [] then 0 else agents[0].live + LiveTotal(agents[1..])
  }

  /**
   Names are issued downwards from the last one, each once, and none below zero; each was for a
   registration that is live or has ended, and a connection that failed is not used again.
   */
  ghost predicate AgentSound(ag: Agent) {
    && ag.live + ag.failed <= ag.active <= ag.maxConns
    && |ag.issued| == ag.succeeded + ag.failed + ag.live
    && |ag.issued| + ag.nameNum == ag.numNames
    && forall k :: 0 <= k < |ag.issued| ==> ag.issued[k] == ag.numNames - 1 - k
  }

  ghost predicate Balanced(sys: System, initial: nat) {
    && WithinLimits(sys)
    && sys.tokens + LiveTotal(sys.agents) == initial
    && (forall a :: 0 <= a < |sys.agents| ==> AgentSound(sys.agents[a]))
    && Distinct(sys.waiting)
  }

  /** Between handlers nobody waits while a token is free. */
  ghost predicate Sound(sys: System, initial: nat) {
    Balanced(sys, initial) && (sys.waiting != [] ==> sys.tokens == 0)
  }

  lemma {:induction false} LiveAfterUpdate(agents: seq<Agent>, a: nat, ag: Agent)
    requires a < |agents|
    ensures LiveTotal(agents[a := ag]) + agents[a].live == LiveTotal(agents) + ag.live
  {
    if a == 0 {
      assert agents[0 := ag][1..] == agents[1..];
    } else {
      LiveAfterUpdate(agents[1..], a - 1, ag);
      assert agents[a := ag][1..] == agents[1..][a - 1 := ag];
    }
  }

  lemma {:induction false} LiveAfterAppend(agents: seq<Agent>, ag: Agent)
    ensures LiveTotal(agents + [ag]) == LiveTotal(agents) + ag.live
  {
    if agents == [] {
      assert [] + [ag] == [ag] && [ag][1..] == [];
    } else {
      LiveAfterAppend(agents[1..], ag);
      assert (agents + [ag])[1..] == agents[1..] + [ag];
    }
  }

  lemma {:induction false} RegisterManyKeepsIssued(ag: Agent, n: nat)
    requires AgentSound(ag) && n <= ag.nameNum
    ensures var r := RegisterMany(ag, n);
      && |r.issued| == |ag.issued| + n
      && |r.issued| + r.nameNum == r.numNames
      && forall k :: 0 <= k < |r.issued| ==> r.issued[k] == r.numNames - 1 - k
  {
    if n > 0 {
      RegisterManyKeepsIssued(ag, n - 1);
    }
  }

  lemma AsyncRunKeepsBalance(sys: System, a: nat, initial: nat)
    requires Balanced(sys, initial) && a < |sys.agents|
    ensures var r := AsyncRun(sys, a);
      && r.tokens + LiveTotal(r.agents) == initial
      && (forall b :: 0 <= b < |r.agents| ==> AgentSound(r.agents[b]))
  {
    hide RegisterMany, LiveTotal;
    var ag := sys.agents[a];
    var received := Smaller(Requested(ag), sys.tokens);
    RegisterManyKeepsIssued(ag, received);
    var ran := RegisterMany(ag, received);
    LiveAfterUpdate(sys.agents, a, ran.(active := ran.active + received));
  }

  lemma {:induction false} NotifyKeeps(sys: System, initial: nat)
    requires Balanced(sys, initial)
    ensures Sound(Notify(sys), initial)
    decreases if sys.tokens == 0 then 0 else |sys.waiting|
  {
    if sys.tokens != 0 && sys.waiting != [] {
      hide LiveTotal, AgentSound;
      var a := sys.waiting[0];
      var ran := AsyncRun(sys, a);
      AsyncRunKeepsBalance(sys, a, initial);
      var next := ran.(waiting := ran.waiting[1..]);
      assert Distinct(next.waiting) by {
        assert next.waiting == sys.waiting[1..] || next.waiting == sys.waiting[1..] + [a];
      }
      hide AsyncRun;
      NotifyKeeps(next, initial);
    }
  }

  lemma CompleteKeeps(sys: System, a: nat, ok: bool, initial: nat)
    requires Sound(sys, initial) && a < |sys.agents| && sys.agents[a].live > 0
    ensures Sound(Complete(sys, a, ok), initial)
  {
    hide LiveTotal, Notify;
    var done := Ended(sys.agents[a], ok);
    LiveAfterUpdate(sys.agents, a, done);
    if ok && done.nameNum > 0 {
      LiveAfterUpdate(sys.agents, a, RegisterOne(done));
      assert AgentSound(RegisterOne(done));
    } else {
      var freed := sys.(agents := sys.agents[a := done]);
      NotifyKeeps(freed.(tokens := freed.tokens + 1), initial);
    }
  }

  lemma JoinKeeps(sys: System, maxConns: nat, numNames: nat, initial: nat)
    requires Sound(sys, initial)
    ensures Sound(Join(sys, maxConns, numNames), initial)
  {
    hide LiveTotal, RegisterMany;
    var ag := NewAgent(maxConns, numNames);
    var more := sys.(agents := sys.agents + [ag]);
    LiveAfterAppend(sys.agents, ag);
    assert Balanced(more, initial);
    AsyncRunKeepsBalance(more, |sys.agents|, initial);
  }

  datatype Event = Joins(maxConns: nat, numNames: nat) | Finishes(a: nat, ok: bool)

  predicate Possible(sys: System, e: Event) {
    e.Finishes? ==> e.a < |sys.agents| && sys.agents[e.a].live > 0
  }

  function Next(sys: System, e: Event): (r: System)
    requires WithinLimits(sys) && Possible(sys, e)
  {
    match e
    case Joins(maxConns, numNames) => Join(sys, maxConns, numNames)
    case Finishes(a, ok) => Complete(sys, a, ok)
  }

  /** A run: what cannot happen is not part of it. */
  ghost predicate IsRun(run: seq<System>, events: seq<Event>, initial: nat) {
    && |run| == |events| + 1
    && run[0] == System(initial, [], [])
    && forall i :: 0 <= i < |events| ==> StepIs(run[i], events[i], run[i + 1])
  }

  ghost predicate StepIs(before: System, e: Event, after: System) {
    WithinLimits(before) && Possible(before, e) && after == Next(before, e)
  }

  /**
   At every moment of every run: free tokens plus live registrations are the initial tokens, no agent
   exceeds its connections, each name index is issued at most once and none is negative, no agent
   waits twice, and nobody waits while a token is free.
   */
  lemma {:induction false} EveryMomentIsSound(run: seq<System>, events: seq<Event>, initial: nat, i: nat)
    requires IsRun(run, events, initial) && i < |run|
    ensures Sound(run[i], initial)
  {
    if i > 0 {
      EveryMomentIsSound(run, events, initial, i - 1);
      assert StepIs(run[i - 1], events[i - 1], run[i - 1 + 1]);
      hide Sound;
      match events[i - 1] {
        case Joins(maxConns, numNames) => JoinKeeps(run[i - 1], maxConns, numNames, initial);
        case Finishes(a, ok) => CompleteKeeps(run[i - 1], a, ok, initial);
      }
    }
  }

  // ---------------------------------------------------------------- what is left over

  /**
   While names are left, every connection of the agent is live or lost to a failure, and the agent
   has all it may have or waits.
   */
  ghost predicate Busy(sys: System) {
    forall a :: 0 <= a < |sys.agents| && sys.agents[a].nameNum > 0 ==>
      && sys.agents[a].live + sys.agents[a].failed == sys.agents[a].active
      && (a in sys.waiting || sys.agents[a].active == sys.agents[a].maxConns)
  }

  /** The same, with the agent whose callback is being run left out. */
  ghost predicate BusyExcept(sys: System, except: nat) {
    forall a :: 0 <= a < |sys.agents| && sys.agents[a].nameNum > 0 ==>
      && sys.agents[a].live + sys.agents[a].failed == sys.agents[a].active
      && (a == except || a in sys.waiting || sys.agents[a].active == sys.agents[a].maxConns)
  }

  lemma AsyncRunKeepsBusy(sys: System, a: nat)
    requires WithinLimits(sys) && a < |sys.agents| && BusyExcept(sys, a)
    ensures Busy(AsyncRun(sys, a))
  {
    hide RegisterMany;
    var r := AsyncRun(sys, a);
    forall b | 0 <= b < |r.agents| && r.agents[b].nameNum > 0
      ensures r.agents[b].live + r.agents[b].failed == r.agents[b].active
      ensures b in r.waiting || r.agents[b].active == r.agents[b].maxConns
    {
      if b == a {
        assert r.waiting != sys.waiting ==> r.waiting[|sys.waiting|] == a;
      } else {
        assert r.agents[b] == sys.agents[b];
        assert b in sys.waiting ==> b in r.waiting;
      }
    }
  }

  /** Running the front callback and popping it is popping it first: async_run only looks at its own agent. */
  lemma PopFirst(sys: System)
    requires WithinLimits(sys) && sys.waiting != []
    ensures var ran, popped := AsyncRun(sys, sys.waiting[0]), sys.(waiting := sys.waiting[1..]);
      ran.waiting != [] && ran.(waiting := ran.waiting[1..]) == AsyncRun(popped, sys.waiting[0])
  {
    hide RegisterMany;
  }

  lemma {:induction false} NotifyKeepsBusy(sys: System)
    requires WithinLimits(sys) && Busy(sys)
    ensures Busy(Notify(sys))
    decreases if sys.tokens == 0 then 0 else |sys.waiting|
  {
    if sys.tokens != 0 && sys.waiting != [] {
      var a, popped := sys.waiting[0], sys.(waiting := sys.waiting[1..]);
      PopFirst(sys);
      assert BusyExcept(popped, a) by {
        assert forall b :: b in sys.waiting ==> b == a || b in popped.waiting;
      }
      AsyncRunKeepsBusy(popped, a);
      hide AsyncRun, Busy, BusyExcept;
      NotifyKeepsBusy(AsyncRun(popped, a));
    }
  }

  lemma CompleteKeepsBusy(sys: System, a: nat, ok: bool)
    requires WithinLimits(sys) && Busy(sys) && a < |sys.agents| && sys.agents[a].live > 0
    ensures Busy(Complete(sys, a, ok))
  {
    hide Notify;
    var done := Ended(sys.agents[a], ok);
    if !ok || done.nameNum == 0 {
      NotifyKeepsBusy(sys.(agents := sys.agents[a := done], tokens := sys.tokens + 1));
    }
  }

  lemma JoinKeepsBusy(sys: System, maxConns: nat, numNames: nat)
    requires WithinLimits(sys) && Busy(sys)
    ensures Busy(Join(sys, maxConns, numNames))
  {
    AsyncRunKeepsBusy(sys.(agents := sys.agents + [NewAgent(maxConns, numNames)]), |sys.agents|);
  }

  lemma {:induction false} EveryMomentIsBusy(run: seq<System>, events: seq<Event>, initial: nat, i: nat)
    requires IsRun(run, events, initial) && i < |run|
    ensures Busy(run[i])
  {
    if i > 0 {
      EveryMomentIsBusy(run, events, initial, i - 1);
      assert StepIs(run[i - 1], events[i - 1], run[i - 1 + 1]);
      hide Busy;
      match events[i - 1] {
        case Joins(maxConns, numNames) => JoinKeepsBusy(run[i - 1], maxConns, numNames);
        case Finishes(a, ok) => CompleteKeepsBusy(run[i - 1], a, ok);
      }
    }
  }

  /** How many registrations of agent a have ended well, or badly. */
  function Outcomes(events: seq<Event>, a: nat, ok: bool): (n: nat) {
    if events == [] then 0 else
      Outcomes(events[..|events| - 1], a, ok) + if events[|events| - 1] == Finishes(a, ok) then 1 else 0
  }

  /** Same agents with the same histories of outcomes. */
  ghost predicate SameOutcomes(before: seq<Agent>, after: seq<Agent>) {
    && |after| == |before|
    && forall b :: 0 <= b < |before| ==> after[b].succeeded == before[b].succeeded && after[b].failed == before[b].failed
  }

  lemma {:induction false} NotifyKeepsOutcomes(sys: System)
    requires WithinLimits(sys)
    ensures SameOutcomes(sys.agents, Notify(sys).agents)
    decreases if sys.tokens == 0 then 0 else |sys.waiting|
  {
    if sys.tokens != 0 && sys.waiting != [] {
      hide RegisterMany;
      var ran := AsyncRun(sys, sys.waiting[0]);
      assert SameOutcomes(sys.agents, ran.agents);
      hide AsyncRun;
      NotifyKeepsOutcomes(ran.(waiting := ran.waiting[1..]));
    }
  }

  /** The counters of an agent say how its registrations have ended; before it joined none had. */
  lemma {:induction false} OutcomesAreCounted(run: seq<System>, events: seq<Event>, initial: nat, i: nat, a: nat)
    requires IsRun(run, events, initial) && i < |run|
    ensures Outcomes(events[..i], a, true) == if a < |run[i].agents| then run[i].agents[a].succeeded else 0
    ensures Outcomes(events[..i], a, false) == if a < |run[i].agents| then run[i].agents[a].failed else 0
  {
    if i > 0 {
      OutcomesAreCounted(run, events, initial, i - 1, a);
      assert StepIs(run[i - 1], events[i - 1], run[i - 1 + 1]);
      assert events[..i][..i - 1] == events[..i - 1];
      StepCounts(run[i - 1], events[i - 1], a);
    }
  }

  lemma StepCounts(sys: System, e: Event, a: nat)
    requires WithinLimits(sys) && Possible(sys, e)
    ensures |sys.agents| <= |Next(sys, e).agents|
    ensures e.Finishes? ==> |Next(sys, e).agents| == |sys.agents|
    ensures a < |Next(sys, e).agents| ==>
      var after := Next(sys, e).agents[a];
      && after.succeeded == (if a < |sys.agents| then sys.agents[a].succeeded else 0) + (if e == Finishes(a, true) then 1 else 0)
      && after.failed == (if a < |sys.agents| then sys.agents[a].failed else 0) + (if e == Finishes(a, false) then 1 else 0)
  {
    hide Notify, RegisterMany;
    match e
    case Joins(_, _) =>
    case Finishes(b, ok) =>
      var done := Ended(sys.agents[b], ok);
      NotifyKeepsOutcomes(sys.(agents := sys.agents[b := done], tokens := sys.tokens + 1));
  }

  /** Nothing is under way and nobody waits, so nothing more will happen to the agents there are. */
  ghost predicate Quiet(sys: System) {
    LiveTotal(sys.agents) == 0 && sys.waiting == []
  }

  lemma {:induction false} NoLiveLeft(agents: seq<Agent>, a: nat)
    requires LiveTotal(agents) == 0 && a < |agents|
    ensures agents[a].live == 0
  {
    if a > 0 {
      NoLiveLeft(agents[1..], a - 1);
    }
  }

  /**
   The exact condition under which an agent registers everything: at every quiet moment of every run,
   whatever happened to other agents, it has no name left if and only if its successes together with
   its connections reach its number of names. It has names left only when every one of its
   connections was lost to a failure of its own.
   */
  lemma AllIssuedExactlyWhen(run: seq<System>, events: seq<Event>, initial: nat, i: nat, a: nat)
    requires IsRun(run, events, initial) && i < |run|
    requires Quiet(run[i]) && a < |run[i].agents|
    ensures var ag, successes, failures := run[i].agents[a], Outcomes(events[..i], a, true), Outcomes(events[..i], a, false);
      && (ag.nameNum == 0 <==> successes + ag.maxConns >= ag.numNames)
      && (ag.nameNum > 0 ==> failures == ag.maxConns)
      && (failures < ag.maxConns || ag.numNames <= ag.maxConns ==> ag.nameNum == 0)
  {
    EveryMomentIsSound(run, events, initial, i);
    EveryMomentIsBusy(run, events, initial, i);
    OutcomesAreCounted(run, events, initial, i, a);
    NoLiveLeft(run[i].agents, a);
    assert AgentSound(run[i].agents[a]);
  }

  lemma RunSnoc(run: seq<System>, events: seq<Event>, initial: nat, e: Event)
    requires IsRun(run, events, initial)
    requires WithinLimits(run[|events|]) && Possible(run[|events|], e)
    ensures IsRun(run + [Next(run[|events|], e)], events + [e], initial)
  {
    var longer, more := run + [Next(run[|events|], e)], events + [e];
    forall i | 0 <= i < |more|
      ensures StepIs(longer[i], more[i], longer[i + 1])
    {
      if i < |events| {
        assert StepIs(run[i], events[i], run[i + 1]);
      }
    }
  }

  /** The only agent of a run so far without success goes on failing until nothing is live. */
  lemma {:induction false} FailToTheEnd(run: seq<System>, events: seq<Event>, initial: nat)
    returns (longer: seq<System>, more: seq<Event>)
    requires IsRun(run, events, initial) && |run| == |events| + 1
    requires |run[|events|].agents| == 1 && Outcomes(events, 0, true) == 0
    ensures IsRun(longer, more, initial) && |longer| == |more| + 1
    ensures var before, after := run[|events|].agents, longer[|more|].agents;
      && |after| == 1 && after[0].live == 0 && Outcomes(more, 0, true) == 0
      && after[0].maxConns == before[0].maxConns && after[0].numNames == before[0].numNames
    decreases run[|events|].agents[0].numNames - run[|events|].agents[0].failed
  {
    var sys := run[|events|];
    EveryMomentIsSound(run, events, initial, |events|);
    assert AgentSound(sys.agents[0]);
    if sys.agents[0].live == 0 {
      longer, more := run, events;
    } else {
      var e := Finishes(0, false);
      RunSnoc(run, events, initial, e);
      StepCounts(sys, e, 0);
      CompleteKeepsLimits(sys, 0, false);
      assert (events + [e])[..|events|] == events;
      longer, more := FailToTheEnd(run + [Next(sys, e)], events + [e], initial);
    }
  }

  lemma {:induction false} NotifyKeepsLimits(sys: System, a: nat)
    requires WithinLimits(sys) && a < |sys.agents|
    ensures Notify(sys).agents[a].maxConns == sys.agents[a].maxConns
    ensures Notify(sys).agents[a].numNames == sys.agents[a].numNames
    decreases if sys.tokens == 0 then 0 else |sys.waiting|
  {
    if sys.tokens != 0 && sys.waiting != [] {
      hide RegisterMany;
      var ran := AsyncRun(sys, sys.waiting[0]);
      NotifyKeepsLimits(ran.(waiting := ran.waiting[1..]), a);
    }
  }

  lemma CompleteKeepsLimits(sys: System, a: nat, ok: bool)
    requires WithinLimits(sys) && a < |sys.agents| && sys.agents[a].live > 0
    ensures Complete(sys, a, ok).agents[a].maxConns == sys.agents[a].maxConns
    ensures Complete(sys, a, ok).agents[a].numNames == sys.agents[a].numNames
  {
    hide Notify;
    var done := Ended(sys.agents[a], ok);
    NotifyKeepsLimits(sys.(agents := sys.agents[a := done], tokens := sys.tokens + 1), a);
  }

  ghost predicate Reachable(sys: System, initial: nat) {
    exists run: seq<System>, events: seq<Event> :: IsRun(run, events, initial) && sys == run[|events|]
  }

  /** Whenever all is quiet, an agent of this size has issued all its names. */
  ghost predicate NeverStranded(initial: nat, maxConns: nat, numNames: nat) {
    forall sys: System :: Reachable(sys, initial) && Quiet(sys) ==>
      forall ag :: ag in sys.agents && ag.maxConns == maxConns && ag.numNames == numNames ==> ag.nameNum == 0
  }

  /** Without a token nothing is ever live, so no registration ever ends. */
  lemma {:induction false} NoTokensNoOutcomes(run: seq<System>, events: seq<Event>, i: nat, a: nat, ok: bool)
    requires IsRun(run, events, 0) && i < |run|
    ensures Outcomes(events[..i], a, ok) == 0
  {
    if i > 0 {
      NoTokensNoOutcomes(run, events, i - 1, a, ok);
      EveryMomentIsSound(run, events, 0, i - 1);
      assert StepIs(run[i - 1], events[i - 1], run[i - 1 + 1]);
      assert events[..i][..i - 1] == events[..i - 1];
      if a < |run[i - 1].agents| {
        NoLiveLeft(run[i - 1].agents, a);
      }
    }
  }

  /**
   In terms of the configuration: names can never be left over, whatever fails, if and only if the
   agent has no more names than connections, or would like to connect but there are no tokens at all,
   so that it waits for ever.
   */
  lemma NeverStrandedExactlyWhen(initial: nat, maxConns: nat, numNames: nat)
    ensures NeverStranded(initial, maxConns, numNames) <==> numNames <= maxConns || (initial == 0 && maxConns > 0)
  {
    if numNames <= maxConns || (initial == 0 && maxConns > 0) {
      forall sys: System, ag |
        Reachable(sys, initial) && Quiet(sys) && ag in sys.agents && ag.maxConns == maxConns && ag.numNames == numNames
        ensures ag.nameNum == 0
      {
        NotStranded(sys, ag, initial);
      }
    } else {
      var sys := Stranded(initial, maxConns, numNames);
      assert sys.agents[0] in sys.agents;
    }
  }

  lemma NotStranded(sys: System, ag: Agent, initial: nat)
    requires Reachable(sys, initial) && Quiet(sys) && ag in sys.agents
    requires ag.numNames <= ag.maxConns || (initial == 0 && ag.maxConns > 0)
    ensures ag.nameNum == 0
  {
    var run: seq<System>, events: seq<Event> :| IsRun(run, events, initial) && sys == run[|events|];
    var a :| 0 <= a < |sys.agents| && sys.agents[a] == ag;
    AllIssuedExactlyWhen(run, events, initial, |events|, a);
    if initial == 0 {
      NoTokensNoOutcomes(run, events, |events|, a, false);
    }
  }

  lemma Stranded(initial: nat, maxConns: nat, numNames: nat) returns (sys: System)
    requires numNames > maxConns && (initial > 0 || maxConns == 0)
    ensures Reachable(sys, initial) && Quiet(sys) && |sys.agents| == 1 && sys.agents[0].nameNum > 0
    ensures sys.agents[0].maxConns == maxConns && sys.agents[0].numNames == numNames
  {
    if initial > 0 {
      var run, events := AllFail(initial, maxConns, numNames);
      sys := run[|events|];
      AllIssuedExactlyWhen(run, events, initial, |events|, 0);
      assert events[..|events|] == events;
      assert Reachable(sys, initial);
    } else {
      var start, events := System(0, [], []), [Joins(0, numNames)];
      sys := Join(start, 0, numNames);
      JoiningRun(0, 0, numNames);
      assert IsRun([start, sys], events, 0) && sys == [start, sys][|events|];
      assert Reachable(sys, 0);
      assert sys.agents == [NewAgent(0, numNames)];
      assert LiveTotal(sys.agents) == sys.agents[0].live + LiveTotal(sys.agents[1..]);
    }
  }

  lemma FirstAgent(initial: nat, maxConns: nat, numNames: nat)
    ensures var agents := Join(System(initial, [], []), maxConns, numNames).agents;
      |agents| == 1 && agents[0].maxConns == maxConns && agents[0].numNames == numNames
  {
    hide RegisterMany;
  }

  lemma QuietAlone(sys: System, initial: nat)
    requires Sound(sys, initial) && initial > 0 && |sys.agents| == 1 && sys.agents[0].live == 0
    ensures Quiet(sys)
  {
    hide AgentSound, WithinLimits;
    assert LiveTotal(sys.agents) == sys.agents[0].live + LiveTotal(sys.agents[1..]);
  }

  /** The run in which a single agent joins and every registration fails. */
  lemma AllFail(initial: nat, maxConns: nat, numNames: nat) returns (run: seq<System>, events: seq<Event>)
    requires initial > 0
    ensures IsRun(run, events, initial) && Outcomes(events, 0, true) == 0
    ensures var last := run[|events|];
      && |last.agents| == 1 && Quiet(last)
      && last.agents[0].maxConns == maxConns && last.agents[0].numNames == numNames
  {
    run := [System(initial, [], []), Join(System(initial, [], []), maxConns, numNames)];
    events := [Joins(maxConns, numNames)];
    FirstAgent(initial, maxConns, numNames);
    JoiningRun(initial, maxConns, numNames);
    hide Join, IsRun, Outcomes, Sound, Quiet;
    run, events := FailToTheEnd(run, events, initial);
    EveryMomentIsSound(run, events, initial, |events|);
    QuietAlone(run[|events|], initial);
  }

  lemma JoiningRun(initial: nat, maxConns: nat, numNames: nat)
    ensures var start, events := System(initial, [], []), [Joins(maxConns, numNames)];
      IsRun([start, Join(start, maxConns, numNames)], events, initial) && Outcomes(events, 0, true) == 0
  {
    hide AsyncRun;
    var events := [Joins(maxConns, numNames)];
    assert events[..0] == [];
  }

  /** A failed registration gives its connection up for good, so names can be left over. */
  lemma FailureStrandsNames()
    ensures var s1 := Join(System(1, [], []), 1, 2);
      && Possible(s1, Finishes(0, false))
      && var s2 := Complete(s1, 0, false);
      && Quiet(s2) && s2.agents[0].nameNum == 1
  {
    var s1 := Join(System(1, [], []), 1, 2);
    assert RegisterMany(NewAgent(1, 2), 0) == NewAgent(1, 2);
    assert RegisterMany(NewAgent(1, 2), 1) == Agent(1, 2, 0, 1, 1, 0, 0, [1]);
    assert s1 == System(0, [], [Agent(1, 2, 1, 1, 1, 0, 0, [1])]);
    var s2 := Complete(s1, 0, false);
    assert s2 == System(1, [], [Agent(1, 2, 1, 1, 0, 0, 1, [1])]);
    assert s2.agents[1..] == [];
  }

  // ---------------------------------------------------------------- the code

  class Registrar {
    var numTokens: nat
    var cbQueue: seq<nat>
    var agents: seq<Agent>

    function Snapshot(): System
      reads this
    {
      System(numTokens, cbQueue, agents)
    }

    constructor (numTokens: nat)
      ensures Snapshot() == System(numTokens, [], [])
    {
      this.numTokens, cbQueue, agents := numTokens, [], [];
    }

    /** token_counter::request */
    method Request(num: nat) returns (granted: nat)
      modifies this`numTokens
      ensures granted == Smaller(num, old(numTokens)) && numTokens == old(numTokens) - granted
    {
      granted := num;
      if granted > numTokens {
        granted := numTokens;
      }
      numTokens := numTokens - granted;
    }

    /** ha_register::register_name */
    method RegisterName(a: nat)
      requires a < |agents| && agents[a].nameNum > 0
      modifies this`agents
      ensures agents == old(agents)[a := RegisterOne(old(agents)[a])]
    {
      var ag := agents[a];
      var name := ag.nameNum - 1;
      agents := agents[a := ag.(nameNum := name, live := ag.live + 1, issued := ag.issued + [name])];
    }

    /** ha_register::async_run */
    method RunAgent(a: nat)
      requires WithinLimits(Snapshot()) && a < |agents|
      modifies this
      ensures Snapshot() == AsyncRun(old(Snapshot()), a)
    {
      ghost var ag := agents[a];
      var requestedToks := Smaller(agents[a].maxConns - agents[a].active, agents[a].nameNum);
      var receivedToks := Request(requestedToks);
      var i := 0;
      while i < receivedToks
        invariant 0 <= i <= receivedToks
        invariant agents == old(agents)[a := RegisterMany(ag, i)]
        invariant cbQueue == old(cbQueue) && numTokens == old(numTokens) - receivedToks
      {
        RegisterName(a);
        i := i + 1;
      }
      agents := agents[a := agents[a].(active := agents[a].active + receivedToks)];
      if receivedToks < requestedToks {
        cbQueue := cbQueue + [a];
      }
    }

    /** token_counter::notify */
    method RunWaiting()
      requires WithinLimits(Snapshot())
      modifies this
      ensures Snapshot() == Notify(old(Snapshot()))
    {
      while numTokens != 0 && cbQueue != []
        invariant WithinLimits(Snapshot()) && Notify(Snapshot()) == Notify(old(Snapshot()))
        decreases if numTokens == 0 then 0 else |cbQueue|
      {
        RunAgent(cbQueue[0]);
        cbQueue := cbQueue[1..];
      }
    }

    /** token_counter::release */
    method ReleaseTokens(num: nat)
      requires WithinLimits(Snapshot())
      modifies this
      ensures Snapshot() == Release(old(Snapshot()), num)
    {
      numTokens := numTokens + num;
      RunWaiting();
    }

    /** ha_register::handle_register_name, called when a live registration of agent a has ended. */
    method HandleRegisterName(a: nat, ok: bool)
      requires WithinLimits(Snapshot()) && a < |agents| && agents[a].live > 0
      modifies this
      ensures Snapshot() == Complete(old(Snapshot()), a, ok)
    {
      agents := agents[a := Ended(agents[a], ok)];
      if ok {
        if agents[a].nameNum > 0 {
          RegisterName(a);
        } else {
          ReleaseTokens(1);
        }
      } else {
        ReleaseTokens(1);
      }
    }

    /** One turn of register_names. */
    method AddAgent(maxConns: nat, numNames: nat)
      requires WithinLimits(Snapshot())
      modifies this
      ensures Snapshot() == Join(old(Snapshot()), maxConns, numNames)
    {
      agents := agents + [NewAgent(maxConns, numNames)];
      RunAgent(|agents| - 1);
    }
  }
}
