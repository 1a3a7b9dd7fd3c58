/** The doubly linked list under the cache. Nodes are never freed in this model. */
module DoublyLinkedLists {
  import opened Shared
  import opened OverlayIds
  import opened LookupTables
  import opened RecencyList

  class DllNode {
    var key: OverlayId
    var value: HostAddress
    var prev: DllNode?
    var next: DllNode?

    constructor (key: OverlayId, value: HostAddress)
      ensures this.key == key && this.value == value && prev == null && next == null
    {
      this.key, this.value := key, value;
      prev, next := null, null;
    }
  }

  ghost function PositionOf(nodes: seq<DllNode>, node: DllNode): (k: nat)
    requires node in nodes
    ensures k < |nodes| && nodes[k] == node
  {
    if nodes[0] == node then 0 else 1 + PositionOf(nodes[1..], node)
  }

  lemma RemoveFirst<T>(s: seq<T>)
    requires s != []
    ensures RemoveAt(s, 0) == s[1..]
  {
  }

  lemma RemoveLast<T>(s: seq<T>)
    requires s != []
    ensures RemoveAt(s, |s| - 1) == DropLast(s)
  {
  }

  lemma RemovedIsGone(nodes: seq<DllNode>, k: nat)
    requires Distinct(nodes) && k < |nodes|
    ensures nodes[k] !in RemoveAt(nodes, k)
  {
  }

  class DoublyLinkedList {
    var head: DllNode?
    var tail: DllNode?
    /** The nodes from head to tail. */
    ghost var nodes: seq<DllNode>

    /** head/next spell `nodes` forwards and tail/prev spell it backwards. */
    ghost predicate Valid()
      reads this, nodes
    {
      && Distinct(nodes)
      && (nodes == [] ==> head == null && tail == null)
      && (nodes != [] ==> head == nodes[0] && tail == nodes[|nodes| - 1]
                          && nodes[0].prev == null && nodes[|nodes| - 1].next == null)
      && (forall i {:trigger nodes[i].next} :: 0 <= i < |nodes| - 1 ==> nodes[i].next == nodes[i + 1])
      && (forall i {:trigger nodes[i].prev} :: 1 <= i < |nodes| ==> nodes[i].prev == nodes[i - 1])
    }

    lemma NodesAreDistinct()
      requires Valid()
      ensures Distinct(nodes)
    {
    }

    lemma TailIsLast()
      requires Valid()
      ensures nodes == [] ==> tail == null
      ensures nodes != [] ==> tail == nodes[|nodes| - 1] && tail !in DropLast(nodes)
    {
    }

    constructor ()
      ensures Valid() && nodes == []
    {
      head, tail := null, null;
      nodes := [];
    }

    method Append2Head(node: DllNode)
      requires Valid() && node !in nodes
      modifies this, nodes, node`prev, node`next
      ensures Valid() && nodes == [node] + old(nodes)
      ensures forall n :: n in nodes ==> n.key == old(n.key) && n.value == old(n.value)
    {
      if head == null {
        head, tail := node, node;
        head.prev := null;
        tail.next := null;
        nodes := [node];
      } else {
        AttachFront(node);
      }
    }

    /** The lines shared by Append2Head and Move2Head: a node goes in front of a nonempty list. */
    method AttachFront(node: DllNode)
      requires Valid() && nodes != [] && node !in nodes
      modifies this, nodes, node`prev, node`next
      ensures Valid() && nodes == [node] + old(nodes)
      ensures forall n :: n in nodes ==> n.key == old(n.key) && n.value == old(n.value)
    {
      node.next := head;
      head.prev := node;
      head := node;
      head.prev := null;
      nodes := [node] + nodes;
    }

    method Append2Tail(node: DllNode)
      requires Valid() && node !in nodes
      modifies this, nodes, node`prev, node`next
      ensures Valid() && nodes == old(nodes) + [node]
      ensures forall n :: n in nodes ==> n.key == old(n.key) && n.value == old(n.value)
    {
      if tail == null {
        head, tail := node, node;
        head.prev := null;
        tail.next := null;
      } else {
        node.prev := tail;
        tail.next := node;
        tail := node;
        tail.next := null;
      }
      nodes := nodes + [node];
    }

    method RemoveTail()
      requires Valid()
      modifies this, nodes
      ensures Valid() && nodes == DropLast(old(nodes))
      ensures forall n :: n in old(nodes) ==> n.key == old(n.key) && n.value == old(n.value)
    {
      if tail == head {
        head, tail := null, null;
      } else {
        var temp := tail;
        tail := tail.prev;
        tail.next := null;
        temp.prev := null;
      }
      nodes := DropLast(nodes);
    }

    /** The branch of Extract for a first node that is not the last. */
    method UnlinkFirst(node: DllNode)
      requires Valid() && |nodes| >= 2 && node == nodes[0]
      modifies this, nodes
      ensures Valid() && nodes == old(nodes)[1..]
      ensures forall n :: n in old(nodes) ==> n.key == old(n.key) && n.value == old(n.value)
    {
      assert node.next == nodes[1];
      head := node.next;
      head.prev := null;
      nodes := nodes[1..];
    }

    /** The branch shared by Extract and Move2Head for a last node that is not the first. */
    method UnlinkLast(node: DllNode)
      requires Valid() && |nodes| >= 2 && node == nodes[|nodes| - 1]
      modifies this, nodes
      ensures Valid() && nodes == DropLast(old(nodes))
      ensures forall n :: n in old(nodes) ==> n.key == old(n.key) && n.value == old(n.value)
    {
      tail := tail.prev;
      tail.next := null;
      nodes := DropLast(nodes);
    }

    /** The branch shared by Extract and Move2Head for a node with neighbours on both sides. */
    method UnlinkMiddle(node: DllNode, ghost k: nat)
      requires Valid() && 0 < k < |nodes| - 1 && nodes[k] == node
      modifies this, nodes
      ensures Valid() && nodes == RemoveAt(old(nodes), k)
      ensures forall n :: n in old(nodes) ==> n.key == old(n.key) && n.value == old(n.value)
    {
      assert node.prev == nodes[k - 1] && node.next == nodes[k + 1];
      node.prev.next := node.next;
      node.next.prev := node.prev;
      nodes := RemoveAt(nodes, k);
    }

    /** The branches of Extract on a nonempty list. */
    method Unlink(node: DllNode, ghost k: nat)
      requires Valid() && k < |nodes| && nodes[k] == node
      modifies this, nodes
      ensures Valid() && nodes == RemoveAt(old(nodes), k)
      ensures forall n :: n in old(nodes) ==> n.key == old(n.key) && n.value == old(n.value)
    {
      if head == node && tail == node {
        OnlyNode(k);
        head, tail := null, null;
        nodes := [];
      } else if head == node {
        assert k == 0;
        UnlinkFirst(node);
        RemoveFirst(old(nodes));
      } else if tail == node {
        assert k == |nodes| - 1;
        UnlinkLast(node);
        RemoveLast(old(nodes));
      } else {
        UnlinkMiddle(node, k);
      }
    }

    lemma OnlyNode(k: nat)
      requires Valid() && nodes != [] && head == tail && k < |nodes| && nodes[k] == head
      ensures RemoveAt(nodes, k) == []
    {
      assert |nodes| == 1;
    }

    /** Unlinks a node of the list; on the empty list there is nothing to unlink. */
    method Extract(node: DllNode) returns (r: DllNode?)
      requires Valid() && (nodes != [] ==> node in nodes)
      modifies this, nodes
      ensures Valid()
      ensures old(nodes) == [] ==> r == null && nodes == []
      ensures old(nodes) != [] ==>
        && r == node && node.prev == null && node.next == null
        && nodes == RemoveAt(old(nodes), PositionOf(old(nodes), node))
      ensures forall n :: n in old(nodes) ==> n.key == old(n.key) && n.value == old(n.value)
    {
      if head == null || tail == null {
        return null;
      }
      ghost var k := PositionOf(nodes, node);
      RemovedIsGone(nodes, k);
      hide RemoveAt, PositionOf;
      Unlink(node, k);
      node.next, node.prev := null, null;
      return node;
    }

    method Move2Head(node: DllNode)
      requires Valid() && (nodes != [] ==> node in nodes)
      modifies this, nodes
      ensures Valid()
      ensures nodes == if old(nodes) == [] then [] else MoveToFront(old(nodes), PositionOf(old(nodes), node))
      ensures forall n :: n in old(nodes) ==> n.key == old(n.key) && n.value == old(n.value)
    {
      if head == null || tail == null {
        return;
      }
      ghost var k := PositionOf(nodes, node);
      if head != node {
        if tail == node {
          assert k == |nodes| - 1;
          UnlinkLast(node);
        } else {
          UnlinkMiddle(node, k);
        }
        assert node !in nodes;
        AttachFront(node);
      }
    }
  }
}
