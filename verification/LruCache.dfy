/**
 The lookup cache: a doubly linked list and a table of its nodes, with the LRU replacement and the
 endpoint insertion policy. Every operation is proved to act on the most-recent-first list of
 entries exactly as RecencyList says.
 */
module LruCaches {
  import opened Shared
  import opened OverlayIds
  import opened LookupTables
  import opened RecencyList
  import opened DoublyLinkedLists

  /** The table has exactly the keys of the list, each leading to the node at the key's position. */
  ghost predicate Agrees(entries: seq<Entry>, nodes: seq<DllNode>, hm: LookupTable<DllNode>) {
    && |entries| == |nodes|
    && DistinctKeys(entries)
    && (forall i :: 0 <= i < |entries| ==> entries[i].key.id in hm && hm[entries[i].key.id].1 == nodes[i])
    && (forall id :: id in hm ==> Has(entries, id))
  }

  ghost predicate Spells(entries: seq<Entry>, nodes: seq<DllNode>)
    reads nodes
  {
    && |entries| == |nodes|
    && forall i :: 0 <= i < |entries| ==> entries[i] == Entry(nodes[i].key, nodes[i].value)
  }

  lemma MoveToFrontSpells(entries: seq<Entry>, nodes: seq<DllNode>, k: nat)
    requires Spells(entries, nodes) && k < |entries|
    ensures Spells(MoveToFront(entries, k), MoveToFront(nodes, k))
  {
    MoveToFrontAt(entries, k, 0);
    MoveToFrontAt(nodes, k, 0);
    forall i | 0 <= i < |entries|
      ensures MoveToFront(entries, k)[i] == Entry(MoveToFront(nodes, k)[i].key, MoveToFront(nodes, k)[i].value)
    {
      MoveToFrontAt(entries, k, i);
      MoveToFrontAt(nodes, k, i);
    }
  }

  lemma AgreesAfterMove(entries: seq<Entry>, nodes: seq<DllNode>, hm: LookupTable<DllNode>, k: nat)
    requires Agrees(entries, nodes, hm) && k < |entries|
    ensures Agrees(MoveToFront(entries, k), MoveToFront(nodes, k), hm)
  {
    hide IndexOf, MoveToFront;
    var id, moved := entries[k].key.id, MoveToFront(entries, k);
    UniqueIndex(entries, id, k);
    PromoteMovesOneEntry(entries, id);
    MoveToFrontAt(entries, k, 0);
    MoveToFrontAt(nodes, k, 0);
    forall i | 0 <= i < |moved|
      ensures moved[i].key.id in hm && hm[moved[i].key.id].1 == MoveToFront(nodes, k)[i]
    {
      MoveToFrontAt(entries, k, i);
      MoveToFrontAt(nodes, k, i);
    }
    forall other | other in hm
      ensures Has(moved, other)
    {
      var p := IndexOf(entries, other);
      MoveToFrontAt(entries, k, if p == k then 0 else if p < k then p + 1 else p);
    }
  }

  lemma AgreesAfterEvict(entries: seq<Entry>, nodes: seq<DllNode>, hm: LookupTable<DllNode>)
    requires Agrees(entries, nodes, hm) && entries != []
    ensures Agrees(DropLast(entries), DropLast(nodes), Remove(hm, entries[|entries| - 1].key))
  {
    hide IndexOf;
    var rest := DropLast(entries);
    forall id | id in hm && id != entries[|entries| - 1].key.id
      ensures Has(rest, id)
    {
      assert rest[IndexOf(entries, id)] == entries[IndexOf(entries, id)];
    }
  }

  lemma AgreesAfterInsert(entries: seq<Entry>, nodes: seq<DllNode>, hm: LookupTable<DllNode>, e: Entry, node: DllNode)
    requires Agrees(entries, nodes, hm) && e.key.id !in hm
    ensures Agrees([e] + entries, [node] + nodes, LookupTables.Add(hm, e.key, node))
  {
    InsertKeepsDistinct(entries, e);
    TableAfterInsert(entries, nodes, hm, e, node);
    hide DistinctKeys, IndexOf;
    forall id | id in hm
      ensures Has([e] + entries, id)
    {
      StillThere(entries, e, id);
    }
    assert Has([e] + entries, e.key.id) by { NewFront(entries, e); }
    hide Has;
  }

  lemma NewFront(entries: seq<Entry>, e: Entry)
    ensures Has([e] + entries, e.key.id)
  {
  }

  lemma TableAfterInsert(entries: seq<Entry>, nodes: seq<DllNode>, hm: LookupTable<DllNode>, e: Entry, node: DllNode)
    requires Agrees(entries, nodes, hm) && e.key.id !in hm
    ensures var all, table := [e] + entries, LookupTables.Add(hm, e.key, node);
      forall i :: 0 <= i < |all| ==> all[i].key.id in table && table[all[i].key.id].1 == ([node] + nodes)[i]
  {
    hide Has, DistinctKeys;
    var all, table := [e] + entries, LookupTables.Add(hm, e.key, node);
    forall i | 0 <= i < |all|
      ensures all[i].key.id in table && table[all[i].key.id].1 == ([node] + nodes)[i]
    {
      if i > 0 {
        assert all[i] == entries[i - 1];
      }
    }
  }

  lemma InsertKeepsDistinct(entries: seq<Entry>, e: Entry)
    requires DistinctKeys(entries) && forall i :: 0 <= i < |entries| ==> entries[i].key.id != e.key.id
    ensures DistinctKeys([e] + entries)
  {
  }

  lemma StillThere(entries: seq<Entry>, e: Entry, id: nat)
    requires Has(entries, id)
    ensures Has([e] + entries, id)
  {
  }

  /** What the table says about a key is what a scan of the list would say. */
  lemma TableIsMembership(entries: seq<Entry>, nodes: seq<DllNode>, hm: LookupTable<DllNode>, id: nat)
    requires Agrees(entries, nodes, hm) && Distinct(nodes)
    ensures id in hm <==> Has(entries, id)
    ensures id in hm ==> hm[id].1 in nodes && PositionOf(nodes, hm[id].1) == IndexOf(entries, id)
  {
    hide IndexOf;
  }

  class Cache {
    const dll: DoublyLinkedList
    var hm: LookupTable<DllNode>
    /** Routing table and peer table belong to the node and may change between operations. */
    var rt: LookupTable<HostAddress>
    var pc: LookupTable<HostAddress>
    const myOid: OverlayId
    const capacity: int
    var size: int
    /** What the list spells, most recent first. */
    ghost var entries: seq<Entry>

    ghost predicate Valid()
      reads this, dll, dll.nodes
    {
      && dll.Valid()
      && Spells(entries, dll.nodes)
      && Agrees(entries, dll.nodes, hm)
    }

    ghost function Contents(): (st: State)
      reads this
    {
      State(entries, size)
    }

    /** The insertion policy refuses keys that the node can reach anyway. */
    predicate Blocked(key: OverlayId)
      reads this
    {
      key.id in pc || key.id in rt || key.id == myOid.id
    }

    constructor (rt: LookupTable<HostAddress>, pc: LookupTable<HostAddress>, oid: OverlayId, capacity: int)
      ensures Valid() && Contents() == EMPTY
      ensures fresh(dll) && this.rt == rt && this.pc == pc && myOid == oid && this.capacity == capacity
    {
      dll := new DoublyLinkedList();
      hm := map[];
      this.rt, this.pc, myOid, this.capacity := rt, pc, oid, capacity;
      size := 0;
      entries := [];
    }

    /** The hit itself: the node found in the table moves to the head of the list. */
    method Touch(node: DllNode)
      requires Valid() && node in dll.nodes
      modifies this`entries, dll, dll.nodes
      ensures Valid()
      ensures entries == MoveToFront(old(entries), PositionOf(old(dll.nodes), node))
      ensures forall i :: 0 <= i < |dll.nodes| ==> dll.nodes[i] in old(dll.nodes)
    {
      hide Agrees, DoublyLinkedList.Valid, MoveToFront;
      ghost var k := PositionOf(dll.nodes, node);
      AgreesAfterMove(entries, dll.nodes, hm, k);
      MoveToFrontKeepsElements(dll.nodes, k);
      MoveToFrontSpells(entries, dll.nodes, k);
      dll.Move2Head(node);
      entries := MoveToFront(entries, k);
    }

    /** CacheReplaceLRU::processHit */
    method ProcessHit(key: OverlayId) returns (hit: bool)
      requires Valid()
      modifies this`entries, dll, dll.nodes
      ensures Valid()
      ensures hit == Has(old(entries), key.id)
      ensures entries == Promote(old(entries), key.id)
      ensures forall i :: 0 <= i < |dll.nodes| ==> dll.nodes[i] in old(dll.nodes)
    {
      hide IndexOf, Agrees;
      dll.NodesAreDistinct();
      hide DoublyLinkedList.Valid, Distinct, PositionOf, MoveToFront;
      TableIsMembership(entries, dll.nodes, hm, key.id);
      if key.id in hm {
        Touch(hm[key.id].1);
        return true;
      }
      return false;
    }

    /** CacheReplaceLRU::evict, and the decrement of the counter that follows it. */
    method Evict()
      requires Valid()
      modifies this`hm, this`size, this`entries, dll, dll.nodes
      ensures Valid()
      ensures Contents() == State(DropLast(old(entries)), old(size) - 1)
      ensures forall i :: 0 <= i < |dll.nodes| ==> dll.nodes[i] in old(dll.nodes)
    {
      hide Agrees;
      dll.TailIsLast();
      hide DoublyLinkedList.Valid;
      var tail := dll.tail;
      if tail != null {
        AgreesAfterEvict(entries, dll.nodes, hm);
        var key := tail.key;
        dll.RemoveTail();
        hm := Remove(hm, key);
      }
      size := size - 1;
      entries := DropLast(entries);
    }

    /** CacheInsertEndpoint::insert past its admission test. */
    method InsertNew(key: OverlayId, value: HostAddress)
      requires Valid() && key.id !in hm
      modifies this`hm, this`size, this`entries, dll, dll.nodes
      ensures Valid()
      ensures size == old(size) + 1 && entries == [Entry(key, value)] + old(entries)
      ensures forall i :: 0 <= i < |dll.nodes| ==> dll.nodes[i] in old(dll.nodes) || fresh(dll.nodes[i])
    {
      hide Agrees, DoublyLinkedList.Valid, Distinct;
      ghost var nodes := dll.nodes;
      var newNode := new DllNode(key, value);
      AgreesAfterInsert(entries, nodes, hm, Entry(key, value), newNode);
      dll.Append2Head(newNode);
      assert dll.nodes[1..] == nodes;
      hm := LookupTables.Add(hm, key, newNode);
      size := size + 1;
      entries := [Entry(key, value)] + entries;
    }

    /** CacheInsertEndpoint::insert */
    method Insert(key: OverlayId, value: HostAddress)
      requires Valid()
      modifies this`hm, this`size, this`entries, dll, dll.nodes
      ensures Valid()
      ensures Contents() == RecencyList.Insert(old(Contents()), key, value, old(Blocked(key)))
      ensures forall i :: 0 <= i < |dll.nodes| ==> dll.nodes[i] in old(dll.nodes) || fresh(dll.nodes[i])
    {
      hide IndexOf, Agrees;
      dll.NodesAreDistinct();
      hide DoublyLinkedList.Valid, Distinct, PositionOf;
      TableIsMembership(entries, dll.nodes, hm, key.id);
      if key.id in pc || key.id in hm || key.id in rt || key.id == myOid.id {
        return;
      }
      InsertNew(key, value);
    }

    /** The guard of Cache::add: at capacity, refresh a present key or evict. */
    method MakeRoom(key: OverlayId)
      requires Valid()
      modifies this`hm, this`size, this`entries, dll, dll.nodes
      ensures Valid()
      ensures Contents() == RecencyList.MakeRoom(old(Contents()), capacity, key.id)
      ensures forall i :: 0 <= i < |dll.nodes| ==> dll.nodes[i] in old(dll.nodes)
    {
      hide IndexOf, Promote, Agrees, Spells, DoublyLinkedList.Valid;
      if size == capacity {
        var hit := ProcessHit(key);
        if !hit {
          NotPromoted(old(entries), key.id);
          Evict();
        } else {
          PromotedIsPresent(old(entries), key.id);
        }
      }
    }

    /** Cache::add */
    method Add(key: OverlayId, value: HostAddress)
      requires Valid()
      modifies this`hm, this`size, this`entries, dll, dll.nodes
      ensures Valid()
      ensures Contents() == Step(old(Contents()), capacity, RecencyList.Add(key, value, old(Blocked(key))))
      ensures Has(entries, key.id) <==>
        old(Has(entries, key.id)) || !(key.id in rt || key.id in pc || key.id == myOid.id)
      ensures capacity >= 1 && old(Sound(Contents(), capacity)) ==> Sound(Contents(), capacity)
      ensures forall i :: 0 <= i < |dll.nodes| ==> dll.nodes[i] in old(dll.nodes) || fresh(dll.nodes[i])
    {
      hide Cache.Valid, RecencyList.MakeRoom, RecencyList.Insert, IndexOf, Sound;
      if capacity >= 1 && Sound(Contents(), capacity) {
        StepKeepsSound(Contents(), capacity, RecencyList.Add(key, value, Blocked(key)));
      }
      AddedIsPresent(Contents(), capacity, key, value, Blocked(key));
      hide Has, Step;
      MakeRoom(key);
      Insert(key, value);
    }

    /** Cache::lookup */
    method Lookup(key: OverlayId) returns (found: Option<HostAddress>)
      requires Valid()
      modifies this`entries, dll, dll.nodes
      ensures Valid()
      ensures found == Found(old(Contents()), key.id)
      ensures Contents() == Step(old(Contents()), capacity, RecencyList.Lookup(key.id))
      ensures capacity >= 1 && old(Sound(Contents(), capacity)) ==> Sound(Contents(), capacity)
      ensures forall i :: 0 <= i < |dll.nodes| ==> dll.nodes[i] in old(dll.nodes)
    {
      hide IndexOf, Promote, DoublyLinkedList.Valid, Sound;
      if capacity >= 1 && Sound(Contents(), capacity) {
        StepKeepsSound(Contents(), capacity, RecencyList.Lookup(key.id));
      }
      dll.NodesAreDistinct();
      TableIsMembership(entries, dll.nodes, hm, key.id);
      if key.id in hm {
        var node := hm[key.id].1;
        found := Some(node.value);
        var hit := ProcessHit(key);
      } else {
        found := None;
        NotPromoted(entries, key.id);
      }
    }
  }

  lemma MoveToFrontKeepsElements<T>(s: seq<T>, k: nat)
    requires k < |s|
    ensures |MoveToFront(s, k)| == |s|
    ensures forall i :: 0 <= i < |s| ==> MoveToFront(s, k)[i] in s
  {
    assert s == s[..k] + [s[k]] + s[k + 1..];
  }

  lemma PromotedIsPresent(s: seq<Entry>, id: nat)
    requires Has(s, id)
    ensures Has(Promote(s, id), id)
  {
    assert Promote(s, id)[0].key.id == id;
  }

  lemma NotPromoted(s: seq<Entry>, id: nat)
    requires !Has(s, id)
    ensures Promote(s, id) == s
  {
  }
}
