/** The singly-linked list: nodes linked by `Next` from `head` to `tail`, new items
    appended at the tail, removal of the first equal item. */
module SinglyLinkedList {
  import opened Sequences

  /** A node of the list: its value and the link to the next node. */
  class ListNode<T> {
    const Data: T
    var Next: ListNode?<T>

    constructor (data: T)
      ensures Data == data && Next == null
    {
      Data := data;
      Next := null;
    }
  }

  class LinkedList<T(==)> {
    var head: ListNode?<T>
    var tail: ListNode?<T>
    var Count: nat

    /** The nodes from head to tail, and the values they hold. */
    ghost var Nodes: seq<ListNode<T>>
    ghost var Items: seq<T>

    /** The links: `head` and `tail` at the two ends (both null when the list is
        empty, the same node when it has one item), each `Next` pointing at the
        following node and the tail's at null. */
    ghost predicate Chain()
      reads this`head, this`tail, this`Nodes, Nodes
    {
      && head == (if |Nodes| == 0 then null else Nodes[0])
      && tail == (if |Nodes| == 0 then null else Nodes[|Nodes| - 1])
      && (|Nodes| > 0 ==> Nodes[|Nodes| - 1].Next == null)
      && (forall k {:trigger Nodes[k].Next} :: 0 <= k < |Nodes| - 1 ==> Nodes[k].Next == Nodes[k + 1])
    }

    /** The links make the nodes distinct: a node occurring twice would repeat the
        rest of the list after itself, and so could never reach the tail's null. */
    lemma {:induction false} NodesDistinct(i: nat, j: nat)
      requires Chain() && i < j < |Nodes|
      ensures Nodes[i] != Nodes[j]
      decreases |Nodes| - j
    {
      assert Nodes[i].Next == Nodes[i + 1];
      if j + 1 < |Nodes| {
        NodesDistinct(i + 1, j + 1);
        assert Nodes[j].Next == Nodes[j + 1];
      }
    }

    /** No other node is the one at position `j`. */
    lemma Unique(j: nat)
      requires Chain() && j < |Nodes|
      ensures forall k :: 0 <= k < |Nodes| && k != j ==> Nodes[k] != Nodes[j]
    {
      forall k | 0 <= k < |Nodes| && k != j
        ensures Nodes[k] != Nodes[j]
      {
        if k < j {
          NodesDistinct(k, j);
        } else {
          NodesDistinct(j, k);
        }
      }
    }

    /** The object invariant: linked, `Items` read off the nodes, and `Count` the
        number of nodes. */
    ghost predicate Valid()
      reads this, Nodes
    {
      && Chain()
      && |Items| == |Nodes|
      && (forall k :: 0 <= k < |Nodes| ==> Items[k] == Nodes[k].Data)
      && Count == |Nodes|
    }

    constructor ()
      ensures Valid() && Items == [] && Nodes == []
    {
      head := null;
      tail := null;
      Count := 0;
      Nodes := [];
      Items := [];
    }

    /** Appends `item` at the tail; on an empty list the new node becomes both head
        and tail. */
    method Add(item: T)
      requires Valid()
      modifies this, tail
      ensures Valid()
      ensures Items == old(Items) + [item] && Count == old(Count) + 1
      ensures Nodes[..old(Count)] == old(Nodes) && fresh(Nodes[old(Count)])
      ensures old(Count) == 0 ==> head == tail == Nodes[0]
    {
      var node := new ListNode(item);
      if head == null {
        head := node;
        tail := node;
      } else {
        tail.Next := node;
        tail := node;
      }
      Nodes := Nodes + [node];
      Items := Items + [item];
      Count := Count + 1;
    }

    /** Forgets every node. */
    method Clear()
      modifies this
      ensures Valid() && Items == [] && head == null && tail == null
    {
      head := null;
      tail := null;
      Count := 0;
      Nodes := [];
      Items := [];
    }

    /** Whether some node holds `item`, scanning from the head. */
    method Contains(item: T) returns (b: bool)
      requires Valid()
      ensures b <==> item in Items
    {
      var current := head;
      ghost var k := 0;
      while current != null
        invariant k <= |Nodes| && current == (if k < |Nodes| then Nodes[k] else null)
        invariant forall j :: 0 <= j < k ==> Items[j] != item
        decreases |Nodes| - k
      {
        if current.Data == item {
          assert Items[k] == item;
          return true;
        }
        current := current.Next;
        k := k + 1;
      }
      return false;
    }

    /** Unlinks the first node holding `item`, bridging its predecessor over it,
        and reports whether there was one; a miss changes nothing. */
    method Remove(item: T) returns (b: bool)
      requires Valid()
      modifies this, Nodes
      ensures Valid()
      ensures b <==> item in old(Items)
      ensures Items == RemoveFirst(old(Items), item)
      ensures b ==> Nodes == RemoveAt(old(Nodes), FirstIndex(old(Items), item))
      ensures !b ==> Nodes == old(Nodes)
    {
      var previous: ListNode?<T> := null;
      var current := head;
      ghost var k := 0;
      while current != null
        invariant Valid() && Nodes == old(Nodes) && Items == old(Items)
        invariant k <= |Nodes| && current == (if k < |Nodes| then Nodes[k] else null)
        invariant previous == (if k == 0 then null else Nodes[k - 1])
        invariant forall j :: 0 <= j < k ==> Items[j] != item
        decreases |Nodes| - k
      {
        if current.Data == item {
          assert Items[k] == item;
          assert FirstIndex(Items, item) == k;
          Unlink(current, previous, k);
          return true;
        }
        previous := current;
        current := current.Next;
        k := k + 1;
      }
      assert FirstIndex(Items, item) == |Items|;
      return false;
    }

    /** The hit branch of `Remove`: unlinks the node at position `k`, whose
        predecessor is `previous`, moving `head` or `tail` when it was at an end. */
    method Unlink(current: ListNode<T>, previous: ListNode?<T>, ghost k: nat)
      requires Valid() && k < |Nodes| && Nodes[k] == current
      requires previous == (if k == 0 then null else Nodes[k - 1])
      modifies this, previous
      ensures Valid()
      ensures Nodes == RemoveAt(old(Nodes), k) && Items == RemoveAt(old(Items), k)
    {
      ghost var n := Nodes;
      if previous != null {
        Unique(k - 1);
        previous.Next := current.Next;
        if current.Next == null {
          tail := previous;
        }
      } else {
        head := head.Next;
        if head == null {
          tail := null;
        }
      }
      Nodes := RemoveAt(n, k);
      Items := RemoveAt(Items, k);
      Count := Count - 1;
    }
  }
}
