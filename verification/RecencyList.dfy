/**
 The lookup cache as a value: a most-recent-first list of entries and the `size` counter the code
 keeps beside it. What one operation does to it, and what every run of operations keeps.
 */
module RecencyList {
  import opened Shared
  import opened OverlayIds
  import opened LookupTables

  datatype Entry = Entry(key: OverlayId, value: HostAddress)

  datatype State = State(entries: seq<Entry>, size: int)

  /** `blocked` says that the key is in the routing table, in the peer table, or the node's own id. */
  datatype Op = Add(key: OverlayId, value: HostAddress, blocked: bool) | Lookup(id: nat) {
    function Target(): nat {
      match this
      case Add(key, _, _) => key.id
      case Lookup(id) => id
    }
  }

  /** Position of the entry for `id`, or the length if there is none. */
  function IndexOf(s: seq<Entry>, id: nat): (r: nat)
    ensures r <= |s|
    ensures r < |s| ==> s[r].key.id == id
    ensures forall j :: 0 <= j < r ==> s[j].key.id != id
  {
    if s == [] then 0 else if s[0].key.id == id then 0 else 1 + IndexOf(s[1..], id)
  }

  predicate Has(s: seq<Entry>, id: nat) {
    IndexOf(s, id) < |s|
  }

  function RemoveAt<T>(s: seq<T>, k: nat): (r: seq<T>)
    requires k < |s|
  {
    s[..k] + s[k + 1..]
  }

  lemma RemoveAtMeaning<T>(s: seq<T>, k: nat, i: nat)
    requires k < |s| && i < |s| - 1
    ensures |RemoveAt(s, k)| == |s| - 1 && RemoveAt(s, k)[i] == s[if i < k then i else i + 1]
  {
  }

  function MoveToFront<T>(s: seq<T>, k: nat): (r: seq<T>)
    requires k < |s|
  {
    [s[k]] + RemoveAt(s, k)
  }

  function Promote(s: seq<Entry>, id: nat): (r: seq<Entry>) {
    if Has(s, id) then MoveToFront(s, IndexOf(s, id)) else s
  }

  function DropLast<T>(s: seq<T>): (r: seq<T>) {
    if s == [] then [] else s[..|s| - 1]
  }

  /** When the counter has reached the capacity: refresh a present key, or evict the last entry. */
  function MakeRoom(st: State, capacity: int, id: nat): (r: State) {
    if st.size != capacity then st
    else if Has(st.entries, id) then State(Promote(st.entries, id), st.size)
    else State(DropLast(st.entries), st.size - 1)
  }

  function Insert(st: State, key: OverlayId, value: HostAddress, blocked: bool): (r: State) {
    if blocked || Has(st.entries, key.id) then st
    else State([Entry(key, value)] + st.entries, st.size + 1)
  }

  function Step(st: State, capacity: int, op: Op): (r: State) {
    match op
    case Add(key, value, blocked) => Insert(MakeRoom(st, capacity, key.id), key, value, blocked)
    case Lookup(id) => State(Promote(st.entries, id), st.size)
  }

  function Run(st: State, capacity: int, ops: seq<Op>): (r: State)
    decreases ops
  {
    if ops == [] then st else Run(Step(st, capacity, ops[0]), capacity, ops[1..])
  }

  function Found(st: State, id: nat): (r: Option<HostAddress>) {
    if Has(st.entries, id) then Some(st.entries[IndexOf(st.entries, id)].value) else None
  }

  const EMPTY := State([], 0)

  ghost predicate DistinctKeys(s: seq<Entry>) {
    forall i, j :: 0 <= i < j < |s| ==> s[i].key.id != s[j].key.id
  }

  ghost predicate Sound(st: State, capacity: int) {
    st.size == |st.entries| && st.size <= capacity && DistinctKeys(st.entries)
  }

  lemma RemoveKeepsDistinct(s: seq<Entry>, k: nat)
    requires DistinctKeys(s) && k < |s|
    ensures DistinctKeys(RemoveAt(s, k))
    ensures forall j :: 0 <= j < |s| - 1 ==> RemoveAt(s, k)[j].key.id != s[k].key.id
  {
  }

  /** Where each entry comes from. */
  lemma MoveToFrontAt<T>(s: seq<T>, k: nat, i: nat)
    requires k < |s| && i < |s|
    ensures |MoveToFront(s, k)| == |s|
    ensures MoveToFront(s, k)[i] == s[if i == 0 then k else if i <= k then i - 1 else i]
  {
  }

  lemma MoveToFrontKeepsMultiset<T>(s: seq<T>, k: nat)
    requires k < |s|
    ensures multiset(MoveToFront(s, k)) == multiset(s)
  {
    assert s == s[..k] + [s[k]] + s[k + 1..];
  }

  lemma MoveToFrontKeepsDistinct(s: seq<Entry>, k: nat)
    requires DistinctKeys(s) && k < |s|
    ensures DistinctKeys(MoveToFront(s, k))
  {
    RemoveKeepsDistinct(s, k);
    hide RemoveAt;
  }

  /** A hit puts exactly that entry in front and keeps all others in their order. */
  lemma PromoteMovesOneEntry(s: seq<Entry>, id: nat)
    requires DistinctKeys(s) && Has(s, id)
    ensures Promote(s, id)[0] == s[IndexOf(s, id)] && Promote(s, id)[0].key.id == id
    ensures Promote(s, id)[1..] == s[..IndexOf(s, id)] + s[IndexOf(s, id) + 1..]
    ensures multiset(Promote(s, id)) == multiset(s)
    ensures DistinctKeys(Promote(s, id))
  {
    hide IndexOf, DistinctKeys;
    MoveToFrontKeepsMultiset(s, IndexOf(s, id));
    MoveToFrontKeepsDistinct(s, IndexOf(s, id));
  }

  lemma MakeRoomKeepsSound(st: State, capacity: int, id: nat)
    requires capacity >= 1 && Sound(st, capacity)
    ensures Sound(MakeRoom(st, capacity, id), capacity)
    ensures MakeRoom(st, capacity, id).size < capacity || Has(MakeRoom(st, capacity, id).entries, id)
  {
    hide IndexOf;
    if st.size == capacity && Has(st.entries, id) {
      PromoteMovesOneEntry(st.entries, id);
      assert MakeRoom(st, capacity, id).entries[0].key.id == id;
    }
  }

  lemma StepKeepsSound(st: State, capacity: int, op: Op)
    requires capacity >= 1 && Sound(st, capacity)
    ensures Sound(Step(st, capacity, op), capacity)
  {
    hide IndexOf, RemoveAt;
    match op
    case Add(key, _, _) =>
      hide MakeRoom;
      MakeRoomKeepsSound(st, capacity, key.id);
    case Lookup(id) =>
      if Has(st.entries, id) {
        PromoteMovesOneEntry(st.entries, id);
        assert |Promote(st.entries, id)| == |multiset(Promote(st.entries, id))|;
        assert |st.entries| == |multiset(st.entries)|;
      }
  }

  lemma {:induction false} RunKeepsSound(st: State, capacity: int, ops: seq<Op>)
    requires capacity >= 1 && Sound(st, capacity)
    ensures Sound(Run(st, capacity, ops), capacity)
    decreases ops
  {
    if ops != [] {
      StepKeepsSound(st, capacity, ops[0]);
      RunKeepsSound(Step(st, capacity, ops[0]), capacity, ops[1..]);
    }
  }

  /** In every run from the empty cache the counter is the length, within the capacity, and keys are distinct. */
  ghost predicate AlwaysSound(capacity: int) {
    forall ops: seq<Op> :: Sound(Run(EMPTY, capacity, ops), capacity)
  }

  /** The counter agrees with the list. */
  ghost predicate Counted(st: State) {
    st.size == |st.entries|
  }

  lemma PromoteKeepsLength(s: seq<Entry>, id: nat)
    ensures |Promote(s, id)| == |s|
  {
  }

  lemma StepKeepsCount(st: State, capacity: int, op: Op)
    requires capacity != 0 && Counted(st)
    ensures Counted(Step(st, capacity, op))
  {
    hide IndexOf, Promote;
    PromoteKeepsLength(st.entries, op.Target());
  }

  lemma {:induction false} RunKeepsCount(st: State, capacity: int, ops: seq<Op>)
    requires capacity != 0 && Counted(st)
    ensures Counted(Run(st, capacity, ops))
    decreases ops
  {
    if ops != [] {
      StepKeepsCount(st, capacity, ops[0]);
      RunKeepsCount(Step(st, capacity, ops[0]), capacity, ops[1..]);
    }
  }

  /** With capacity 0 the first add drives the counter to -1 before inserting. */
  lemma FirstAddMiscounts(key: OverlayId, value: HostAddress)
    ensures Run(EMPTY, 0, [Add(key, value, false)]) == State([Entry(key, value)], 0)
  {
    var op := Add(key, value, false);
    assert MakeRoom(EMPTY, 0, key.id) == State([], -1);
    assert Step(EMPTY, 0, op) == State([Entry(key, value)], 0);
    assert [op][1..] == [];
  }

  ghost predicate AlwaysCounted(capacity: int) {
    forall ops: seq<Op> :: Counted(Run(EMPTY, capacity, ops))
  }

  /** The counter is the number of entries over all runs: exactly when the capacity is not zero. */
  lemma CounterIsLengthExactlyWhen(capacity: int)
    ensures AlwaysCounted(capacity) <==> capacity != 0
  {
    if capacity != 0 {
      forall ops: seq<Op>
        ensures Counted(Run(EMPTY, capacity, ops))
      {
        RunKeepsCount(EMPTY, capacity, ops);
      }
    } else {
      var key, value := OverlayId(0, 0, 1), HostAddress("", 0);
      FirstAddMiscounts(key, value);
      assert !Counted(Run(EMPTY, 0, [Add(key, value, false)]));
    }
  }

  /**
   The whole invariant, with the counter never above the capacity and the keys distinct, holds over
   all runs exactly when the capacity is positive; a negative capacity is exceeded from the start.
   */
  lemma RunsAreSoundExactlyWhen(capacity: int)
    ensures AlwaysSound(capacity) <==> capacity >= 1
  {
    if capacity >= 1 {
      forall ops: seq<Op>
        ensures Sound(Run(EMPTY, capacity, ops), capacity)
      {
        RunKeepsSound(EMPTY, capacity, ops);
      }
    } else if capacity == 0 {
      var key, value := OverlayId(0, 0, 1), HostAddress("", 0);
      FirstAddMiscounts(key, value);
      assert !Sound(Run(EMPTY, 0, [Add(key, value, false)]), 0);
    } else {
      assert Run(EMPTY, capacity, []) == EMPTY;
      assert !Sound(EMPTY, capacity);
    }
  }

  /**
   An add, in full: a present key only moves (and only when the cache is full), a blocked key
   changes nothing except that it still evicts from a full cache, and any other key goes in front.
   */
  lemma AddMeaning(st: State, capacity: int, key: OverlayId, value: HostAddress, blocked: bool)
    requires capacity >= 1 && Sound(st, capacity)
    ensures var s, full := st.entries, |st.entries| == capacity;
      var r := Step(st, capacity, Add(key, value, blocked)).entries;
      && (Has(s, key.id) ==> r == if full then MoveToFront(s, IndexOf(s, key.id)) else s)
      && (!Has(s, key.id) && blocked ==> r == if full then s[..capacity - 1] else s)
      && (!Has(s, key.id) && !blocked ==> r == [Entry(key, value)] + if full then s[..capacity - 1] else s)
  {
    if !Has(st.entries, key.id) && |st.entries| == capacity {
      var rest := st.entries[..capacity - 1];
      assert !Has(rest, key.id);
    }
  }

  /** Having a key means that some entry has it. */
  lemma HasMeaning(s: seq<Entry>, id: nat)
    ensures Has(s, id) <==> exists j :: 0 <= j < |s| && s[j].key.id == id
  {
    hide IndexOf;
    if Has(s, id) {
      assert s[IndexOf(s, id)].key.id == id;
    }
  }

  lemma RoomKeepsPresence(st: State, capacity: int, id: nat)
    ensures Has(MakeRoom(st, capacity, id).entries, id) <==> Has(st.entries, id)
  {
    HasMeaning(st.entries, id);
    HasMeaning(MakeRoom(st, capacity, id).entries, id);
    hide IndexOf;
    if Has(st.entries, id) {
      assert Promote(st.entries, id)[0].key.id == id;
    }
  }

  /** After an add the key is cached if it was before or is not blocked, whatever the capacity. */
  lemma AddedIsPresent(st: State, capacity: int, key: OverlayId, value: HostAddress, blocked: bool)
    ensures Has(Step(st, capacity, Add(key, value, blocked)).entries, key.id) <==> Has(st.entries, key.id) || !blocked
  {
    RoomKeepsPresence(st, capacity, key.id);
    hide MakeRoom;
    var room := MakeRoom(st, capacity, key.id);
    assert ([Entry(key, value)] + room.entries)[0].key.id == key.id;
    HasMeaning([Entry(key, value)] + room.entries, key.id);
    hide IndexOf;
  }

  /** What a lookup finds: the value of the entry with that key, wherever it stands. */
  lemma FoundMeaning(st: State, capacity: int, id: nat, k: nat)
    requires Sound(st, capacity)
    ensures k < |st.entries| && st.entries[k].key.id == id ==> Found(st, id) == Some(st.entries[k].value)
    ensures (forall j :: 0 <= j < |st.entries| ==> st.entries[j].key.id != id) ==> Found(st, id) == None
  {
    if k < |st.entries| && st.entries[k].key.id == id {
      UniqueIndex(st.entries, id, k);
    }
    hide IndexOf;
  }

  /**
   A lookup, in full: a hit at position k puts that entry in front of the others, which stay in their
   order; a miss changes nothing.
   */
  lemma LookupMeaning(st: State, capacity: int, id: nat, k: nat)
    requires Sound(st, capacity)
    ensures var s, r := st.entries, Step(st, capacity, Lookup(id));
      && r.size == st.size
      && (k < |s| && s[k].key.id == id ==> r.entries == [s[k]] + s[..k] + s[k + 1..])
      && ((forall j :: 0 <= j < |s| ==> s[j].key.id != id) ==> r == st)
  {
    var s := st.entries;
    if k < |s| && s[k].key.id == id {
      UniqueIndex(s, id, k);
      assert [s[k]] + (s[..k] + s[k + 1..]) == [s[k]] + s[..k] + s[k + 1..];
    }
    hide IndexOf;
  }

  // ---------------------------------------------------------------- how long an entry stays

  /** The keys in front of `id`. */
  ghost function Ahead(s: seq<Entry>, id: nat): (r: set<nat>) {
    set j | 0 <= j < IndexOf(s, id) :: s[j].key.id
  }

  lemma {:induction false} AheadCount(s: seq<Entry>, k: nat)
    requires DistinctKeys(s) && k <= |s|
    ensures |(set j | 0 <= j < k :: s[j].key.id)| == k
  {
    var keys := set j | 0 <= j < k :: s[j].key.id;
    if k > 0 {
      AheadCount(s, k - 1);
      var before := set j | 0 <= j < k - 1 :: s[j].key.id;
      assert keys == before + {s[k - 1].key.id};
      assert s[k - 1].key.id !in before;
    } else {
      assert keys == {};
    }
  }

  ghost function Others(ops: seq<Op>, id: nat): (r: set<nat>) {
    (set i | 0 <= i < |ops| :: ops[i].Target()) - {id}
  }

  lemma UniqueIndex(s: seq<Entry>, id: nat, k: nat)
    requires DistinctKeys(s) && k < |s| && s[k].key.id == id
    ensures IndexOf(s, id) == k
  {
    hide IndexOf;
    var r := IndexOf(s, id);
  }

  /** Moving another key to the front puts at most that key ahead of `id`. */
  lemma PromoteOtherShiftsBack(s: seq<Entry>, id: nat, other: nat)
    requires DistinctKeys(s) && Has(s, id) && other != id
    ensures Has(Promote(s, other), id)
    ensures Promote(s, other)[IndexOf(Promote(s, other), id)] == s[IndexOf(s, id)]
    ensures Ahead(Promote(s, other), id) <= Ahead(s, id) + {other}
  {
    hide IndexOf, MoveToFront;
    if Has(s, other) {
      var k, p := IndexOf(s, id), IndexOf(s, other);
      MovedEntry(s, k, p);
      PromoteMovesOneEntry(s, other);
      var r, k' := Promote(s, other), if p < k then k else k + 1;
      assert r == MoveToFront(s, p);
      UniqueIndex(r, id, k');
      forall j | 0 <= j < k'
        ensures r[j].key.id in Ahead(s, id) + {other}
      {
        MoveToFrontAt(s, p, j);
      }
    }
  }

  lemma MovedEntry(s: seq<Entry>, k: nat, p: nat)
    requires k < |s| && p < |s| && k != p
    ensures var k' := if p < k then k else k + 1;
      k' < |MoveToFront(s, p)| && MoveToFront(s, p)[k'] == s[k]
  {
    MoveToFrontAt(s, p, if p < k then k else k + 1);
  }

  /** Putting a new entry in front puts at most that key ahead of `id`. */
  lemma NewFrontShiftsBack(s: seq<Entry>, e: Entry, id: nat)
    requires DistinctKeys(s) && Has(s, id) && !Has(s, e.key.id)
    ensures Has([e] + s, id)
    ensures ([e] + s)[IndexOf([e] + s, id)] == s[IndexOf(s, id)]
    ensures Ahead([e] + s, id) <= Ahead(s, id) + {e.key.id}
  {
    hide IndexOf;
    var r, k := [e] + s, IndexOf(s, id);
    assert r[k + 1] == s[k];
    assert forall j :: 1 <= j < |r| ==> r[j] == s[j - 1];
    UniqueIndex(r, id, k + 1);
  }

  lemma DropLastKeeps(s: seq<Entry>, id: nat)
    requires DistinctKeys(s) && IndexOf(s, id) < |s| - 1
    ensures IndexOf(DropLast(s), id) == IndexOf(s, id) && Ahead(DropLast(s), id) == Ahead(s, id)
  {
    hide IndexOf;
    UniqueIndex(DropLast(s), id, IndexOf(s, id));
  }

  /** The key is not the last one while fewer than `capacity` keys can be around it. */
  lemma NotEvicted(st: State, capacity: int, id: nat, other: nat, touched: set<nat>)
    requires Sound(st, capacity) && Has(st.entries, id) && !Has(st.entries, other)
    requires |st.entries| == capacity && Ahead(st.entries, id) <= touched && id !in touched
    requires |touched + {other}| < capacity
    ensures IndexOf(st.entries, id) < |st.entries| - 1
  {
    var s := st.entries;
    var k := IndexOf(s, id);
    AheadCount(s, k);
    var ahead := Ahead(s, id);
    assert |ahead| == k;
    assert other !in ahead;
    SubsetCount(ahead + {other}, touched + {other});
  }

  lemma {:induction false} SubsetCount<T>(a: set<T>, b: set<T>)
    requires a <= b
    ensures |a| <= |b|
  {
    if a != {} {
      var x :| x in a;
      SubsetCount(a - {x}, b - {x});
    }
  }

  ghost predicate KeptWithin(s: seq<Entry>, r: seq<Entry>, id: nat, touched: set<nat>) {
    Has(s, id) && Has(r, id) && r[IndexOf(r, id)] == s[IndexOf(s, id)] && Ahead(r, id) <= touched
  }

  lemma MakeRoomKeepsEntry(st: State, capacity: int, other: nat, id: nat, touched: set<nat>)
    requires capacity >= 1 && Sound(st, capacity) && Has(st.entries, id) && other != id
    requires Ahead(st.entries, id) <= touched && id !in touched && |touched + {other}| < capacity
    ensures KeptWithin(st.entries, MakeRoom(st, capacity, other).entries, id, touched + {other})
  {
    hide IndexOf;
    PromoteOtherShiftsBack(st.entries, id, other);
    if |st.entries| == capacity && !Has(st.entries, other) {
      NotEvicted(st, capacity, id, other, touched);
      DropLastKeeps(st.entries, id);
    }
  }

  lemma StepKeepsEntry(st: State, capacity: int, op: Op, id: nat, touched: set<nat>)
    requires capacity >= 1 && Sound(st, capacity) && Has(st.entries, id)
    requires Ahead(st.entries, id) <= touched && id !in touched
    requires |touched + ({op.Target()} - {id})| < capacity
    ensures KeptWithin(st.entries, Step(st, capacity, op).entries, id, touched + ({op.Target()} - {id}))
  {
    hide IndexOf, RemoveAt;
    var s, t := st.entries, op.Target();
    if t == id {
      PromoteMovesOneEntry(s, id);
      UniqueIndex(Promote(s, id), id, 0);
    } else {
      assert {t} - {id} == {t};
      PromoteOtherShiftsBack(s, id, t);
      if op.Add? {
        MakeRoomKeepsEntry(st, capacity, t, id, touched);
        MakeRoomKeepsSound(st, capacity, t);
        var room := MakeRoom(st, capacity, t);
        if !op.blocked && !Has(room.entries, t) {
          NewFrontShiftsBack(room.entries, Entry(op.key, op.value), id);
        }
      }
    }
  }

  /** The operation has just used `id`: it found or refreshed the entry, or put it in. */
  predicate Uses(st: State, capacity: int, op: Op, id: nat) {
    && op.Target() == id
    && if Has(st.entries, id) then op.Lookup? || st.size == capacity else op.Add? && !op.blocked
  }

  /** What is used stands in front afterwards. */
  lemma UsedIsInFront(st: State, capacity: int, op: Op, id: nat)
    requires capacity >= 1 && Sound(st, capacity) && Uses(st, capacity, op, id)
    ensures var r := Step(st, capacity, op).entries;
      && r != [] && r[0].key.id == id
      && r[0].value == if Has(st.entries, id) then st.entries[IndexOf(st.entries, id)].value else op.value
  {
    if op.Lookup? {
      LookupMeaning(st, capacity, id, IndexOf(st.entries, id));
    } else {
      AddMeaning(st, capacity, op.key, op.value, op.blocked);
    }
    hide Step, IndexOf;
  }

  /**
   The least-recently-used guarantee over whole runs: an entry that has just been used, by a lookup that
   hits it anywhere in the list, by an add that refreshes it or by an add that puts it in, is still
   there, with its value, after any run of operations on fewer than `capacity` other keys, blocked keys
   included.
   */
  lemma RecentEntriesStay(st: State, capacity: int, op: Op, ops: seq<Op>, id: nat)
    requires capacity >= 1 && Sound(st, capacity) && Uses(st, capacity, op, id)
    requires |Others(ops, id)| < capacity
    ensures Found(Run(st, capacity, [op] + ops), id) ==
      if Has(st.entries, id) then Found(st, id) else Some(op.value)
  {
    var after := Step(st, capacity, op);
    UsedIsInFront(st, capacity, op, id);
    StepKeepsSound(st, capacity, op);
    FrontEntriesStay(after, capacity, ops, id);
    assert ([op] + ops)[1..] == ops;
    hide Step, IndexOf;
  }

  lemma FrontEntriesStay(st: State, capacity: int, ops: seq<Op>, id: nat)
    requires capacity >= 1 && Sound(st, capacity)
    requires st.entries != [] && st.entries[0].key.id == id
    requires |Others(ops, id)| < capacity
    ensures Found(Run(st, capacity, ops), id) == Some(st.entries[0].value)
  {
    assert Ahead(st.entries, id) == {};
    RunKeepsEntry(st, capacity, ops, id, {});
  }

  lemma OthersOfTail(ops: seq<Op>, id: nat)
    requires ops != []
    ensures Others(ops, id) == ({ops[0].Target()} - {id}) + Others(ops[1..], id)
  {
    var all, rest := set i | 0 <= i < |ops| :: ops[i].Target(), set i | 0 <= i < |ops[1..]| :: ops[1..][i].Target();
    forall t | t in all
      ensures t == ops[0].Target() || t in rest
    {
      var i :| 0 <= i < |ops| && ops[i].Target() == t;
      if i > 0 {
        assert ops[1..][i - 1] == ops[i];
      }
    }
    forall t | t in rest
      ensures t in all
    {
      var i :| 0 <= i < |ops[1..]| && ops[1..][i].Target() == t;
      assert ops[i + 1] == ops[1..][i];
    }
  }

  lemma {:induction false} RunKeepsEntry(st: State, capacity: int, ops: seq<Op>, id: nat, touched: set<nat>)
    requires capacity >= 1 && Sound(st, capacity) && Has(st.entries, id)
    requires Ahead(st.entries, id) <= touched && id !in touched
    requires |touched + Others(ops, id)| < capacity
    ensures Found(Run(st, capacity, ops), id) == Found(st, id)
    decreases ops
  {
    hide IndexOf, Step, Ahead, Others;
    if ops != [] {
      var t := ops[0].Target();
      var touched' := touched + ({t} - {id});
      OthersOfTail(ops, id);
      assert touched' + Others(ops[1..], id) == touched + Others(ops, id);
      SubsetCount(touched', touched + Others(ops, id));
      StepKeepsEntry(st, capacity, ops[0], id, touched);
      StepKeepsSound(st, capacity, ops[0]);
      RunKeepsEntry(Step(st, capacity, ops[0]), capacity, ops[1..], id, touched');
    }
  }

  /**
   The bound is tight: after adding up to `capacity` new keys the front of the list is exactly
   those keys, latest first, so `capacity` of them leave no older entry.
   */
  lemma {:induction false} EnoughOthersEvict(st: State, capacity: int, ops: seq<Op>)
    requires capacity >= 1 && Sound(st, capacity)
    requires |ops| <= capacity
    requires forall i :: 0 <= i < |ops| ==> ops[i].Add? && !ops[i].blocked && !Has(st.entries, ops[i].key.id)
    requires forall i, j :: 0 <= i < j < |ops| ==> ops[i].key.id != ops[j].key.id
    ensures var r := Run(st, capacity, ops).entries;
      && |r| >= |ops|
      && forall i :: 0 <= i < |ops| ==> r[i] == Entry(ops[|ops| - 1 - i].key, ops[|ops| - 1 - i].value)
    decreases |ops|
  {
    if ops != [] {
      hide Run, Step, IndexOf, DistinctKeys, MoveToFront;
      var init, last := ops[..|ops| - 1], ops[|ops| - 1];
      EnoughOthersEvict(st, capacity, init);
      RunSnoc(st, capacity, init, last);
      assert init + [last] == ops;
      RunKeepsSound(st, capacity, init);
      RunOnlyKnownKeys(st, capacity, init, last.key.id);
      AddMeaning(Run(st, capacity, init), capacity, last.key, last.value, false);
    }
  }

  lemma {:induction false} RunSnoc(st: State, capacity: int, ops: seq<Op>, op: Op)
    ensures Run(st, capacity, ops + [op]) == Step(Run(st, capacity, ops), capacity, op)
    decreases ops
  {
    if ops == [] {
      assert [op][1..] == [];
    } else {
      assert (ops + [op])[1..] == ops[1..] + [op];
      RunSnoc(Step(st, capacity, ops[0]), capacity, ops[1..], op);
    }
  }

  /** No key appears that was neither cached before nor added. */
  lemma {:induction false} RunOnlyKnownKeys(st: State, capacity: int, ops: seq<Op>, id: nat)
    requires !Has(st.entries, id)
    requires forall i :: 0 <= i < |ops| ==> ops[i].Target() != id
    ensures !Has(Run(st, capacity, ops).entries, id)
    decreases ops
  {
    if ops != [] {
      var r := Step(st, capacity, ops[0]);
      assert !Has(r.entries, id) by {
        StepAddsNoOtherKey(st, capacity, ops[0], id);
      }
      RunOnlyKnownKeys(r, capacity, ops[1..], id);
    }
  }

  lemma StepAddsNoOtherKey(st: State, capacity: int, op: Op, id: nat)
    requires !Has(st.entries, id) && op.Target() != id
    ensures !Has(Step(st, capacity, op).entries, id)
  {
  }
}
