/** The doubly-linked list: nodes linked both ways between `head` and `tail`, new
    items appended at the tail, removal of the first equal item. The node class
    and the shape of a well-linked chain are shared with the sorted list. */
module DoublyLinkedList {
  import opened Exceptions
  import opened Sequences
  import opened CSharpInt

  /** A node of a doubly-linked list: its value and the links to its neighbours. */
  class ListNode<T> {
    const Data: T
    var Next: ListNode?<T>
    var Prev: ListNode?<T>

    constructor (data: T)
      ensures Data == data && Next == null && Prev == null
    {
      Data := data;
      Next := null;
      Prev := null;
    }
  }

  /** `nodes` is the chain from `head` to `tail`: both ends null when it is empty,
      each `Next` and `Prev` pointing at the neighbour, null past either end. */
  ghost predicate Chain<T>(nodes: seq<ListNode<T>>, head: ListNode?<T>, tail: ListNode?<T>)
    reads nodes
  {
    && head == (if |nodes| == 0 then null else nodes[0])
    && tail == (if |nodes| == 0 then null else nodes[|nodes| - 1])
    && (|nodes| > 0 ==> nodes[0].Prev == null && nodes[|nodes| - 1].Next == null)
    && (forall k {:trigger nodes[k].Next} :: 0 <= k < |nodes| - 1 ==> nodes[k].Next == nodes[k + 1])
    && (forall k {:trigger nodes[k].Prev} :: 0 < k < |nodes| ==> nodes[k].Prev == nodes[k - 1])
  }

  /** The links make the nodes distinct: a node occurring twice would have the same
      predecessor at both places, and so on back to the head, whose predecessor is
      null. */
  lemma {:induction false} NodesDistinct<T>(nodes: seq<ListNode<T>>, head: ListNode?<T>, tail: ListNode?<T>, i: nat, j: nat)
    requires Chain(nodes, head, tail) && i < |nodes| && j < |nodes| && i != j
    ensures nodes[i] != nodes[j]
    decreases i + j
  {
    assert i == 0 || nodes[i].Prev == nodes[i - 1];
    assert j == 0 || nodes[j].Prev == nodes[j - 1];
    if i > 0 && j > 0 {
      NodesDistinct(nodes, head, tail, i - 1, j - 1);
    }
  }

  /** No other node is the one at position `j`. */
  lemma Unique<T>(nodes: seq<ListNode<T>>, head: ListNode?<T>, tail: ListNode?<T>, j: nat)
    requires Chain(nodes, head, tail) && j < |nodes|
    ensures forall k :: 0 <= k < |nodes| && k != j ==> nodes[k] != nodes[j]
  {
    forall k | 0 <= k < |nodes| && k != j
      ensures nodes[k] != nodes[j]
    {
      NodesDistinct(nodes, head, tail, k, j);
    }
  }

  /** `items` are the values the nodes hold, in order. */
  ghost predicate Holds<T>(nodes: seq<ListNode<T>>, items: seq<T>)
  {
    |items| == |nodes| && forall k :: 0 <= k < |nodes| ==> items[k] == nodes[k].Data
  }

  /** The as-written size check on an empty array at index `Int32.MinValue`:
      `0 - arrayIndex` wraps to `Int32.MinValue`, below any count, so the source
      throws the size error there and not the range error. */
  lemma CopyToSizeCheckWraps()
    ensures Wrap(0 - Int32Min) as int == Int32Min < 0
  {
  }

  class LinkedList<T(==)> {
    var head: ListNode?<T>
    var tail: ListNode?<T>
    var Count: nat

    /** The nodes from head to tail, and the values they hold. */
    ghost var Nodes: seq<ListNode<T>>
    ghost var Items: seq<T>

    ghost predicate Valid()
      reads this, Nodes
    {
      Chain(Nodes, head, tail) && Holds(Nodes, Items) && Count == |Nodes|
    }

    constructor ()
      ensures Valid() && Items == [] && Nodes == []
    {
      head := null;
      tail := null;
      Count := 0;
      Nodes := [];
      Items := [];
    }

    /** Appends `item` at the tail; on an empty list the new node becomes both head
        and tail. */
    method Add(item: T)
      requires Valid()
      modifies this, tail
      ensures Valid()
      ensures Items == old(Items) + [item] && Count == old(Count) + 1
      ensures Nodes[..old(Count)] == old(Nodes) && fresh(Nodes[old(Count)])
      ensures old(Count) == 0 ==> head == tail == Nodes[0]
    {
      var node := new ListNode(item);
      if head == null {
        AddNodeEmptyList(node);
      } else {
        AddNodeToEnd(node);
      }
    }

    /** Makes a detached node the whole of an empty list and counts it. */
    method AddNodeEmptyList(node: ListNode<T>)
      requires Valid() && Nodes == []
      requires node.Next == null && node.Prev == null
      modifies this
      ensures Valid() && Nodes == [node] && Items == [node.Data] && Count == 1
    {
      head := node;
      tail := node;
      Count := Count + 1;
      Nodes := [node];
      Items := [node.Data];
    }

    /** Links a detached node in after the tail of a non-empty list and counts it. */
    method AddNodeToEnd(node: ListNode<T>)
      requires Valid() && Nodes != [] && node !in Nodes
      requires node.Next == null && node.Prev == null
      modifies this, tail, node
      ensures Valid() && Count == old(Count) + 1
      ensures Nodes == old(Nodes) + [node] && Items == old(Items) + [node.Data]
    {
      tail.Next := node;
      node.Prev := tail;
      tail := node;
      Count := Count + 1;
      Nodes := Nodes + [node];
      Items := Items + [node.Data];
    }

    /** Empties the list, detaching every node from both neighbours on the way. */
    method Clear()
      requires Valid()
      modifies this, Nodes
      ensures Valid() && Count == 0 && Nodes == [] && Items == []
      ensures head == null && tail == null
      ensures forall x :: x in old(Nodes) ==> x.Next == null && x.Prev == null
    {
      ghost var n := Nodes;
      forall a, b | 0 <= a < |n| && 0 <= b < |n| && a != b
        ensures n[a] != n[b]
      {
        NodesDistinct(n, head, tail, a, b);
      }
      var current := head;
      ghost var k := 0;
      while current != null
        invariant k <= |n| && current == (if k < |n| then n[k] else null)
        invariant forall j :: 0 <= j < k ==> n[j].Next == null && n[j].Prev == null
        invariant forall j :: k <= j < |n| - 1 ==> n[j].Next == n[j + 1]
        invariant k < |n| ==> n[|n| - 1].Next == null
        decreases |n| - k
      {
        var node := current;
        current := current.Next;
        node.Next := null;
        node.Prev := null;
        k := k + 1;
      }
      head := null;
      tail := null;
      Count := 0;
      Nodes := [];
      Items := [];
    }

    /** Whether some node holds `item` under the default equality, scanning from
        the head. */
    method Contains(item: T) returns (b: bool)
      requires Valid()
      ensures b <==> item in Items
    {
      var current := head;
      ghost var k := 0;
      while current != null
        invariant k <= |Nodes| && current == (if k < |Nodes| then Nodes[k] else null)
        invariant forall j :: 0 <= j < k ==> Items[j] != item
        decreases |Nodes| - k
      {
        if current.Data == item {
          assert Items[k] == item;
          return true;
        }
        current := current.Next;
        k := k + 1;
      }
      return false;
    }

    /** Unlinks the first node holding `item` and reports whether there was one;
        a miss, on an empty list too, changes nothing. */
    method Remove(item: T) returns (b: bool)
      requires Valid()
      modifies this, Nodes
      ensures Valid()
      ensures b <==> item in old(Items)
      ensures Items == RemoveFirst(old(Items), item)
      ensures b ==> Nodes == RemoveAt(old(Nodes), FirstIndex(old(Items), item))
      ensures !b ==> Nodes == old(Nodes)
    {
      var current := head;
      ghost var k := 0;
      while current != null
        invariant Valid() && Nodes == old(Nodes) && Items == old(Items)
        invariant k <= |Nodes| && current == (if k < |Nodes| then Nodes[k] else null)
        invariant forall j :: 0 <= j < k ==> Items[j] != item
        decreases |Nodes| - k
      {
        if current.Data == item {
          assert Items[k] == item;
          assert FirstIndex(Items, item) == k;
          Unlink(current, k);
          return true;
        }
        current := current.Next;
        k := k + 1;
      }
      assert FirstIndex(Items, item) == |Items|;
      return false;
    }

    /** The hit branch of `Remove`: a node with a predecessor is bridged over, the
        head node is dropped from the front. */
    method Unlink(node: ListNode<T>, ghost k: nat)
      requires Valid() && k < |Nodes| && Nodes[k] == node
      modifies this, Nodes
      ensures Valid()
      ensures Nodes == RemoveAt(old(Nodes), k) && Items == RemoveAt(old(Items), k)
      ensures node.Next == null && node.Prev == null
    {
      if node.Prev != null {
        RemoveFromMiddle(node, k);
      } else {
        RemoveFromStart(node);
      }
    }

    /** Unlinks the head node and counts it out; the new head, if any, loses its
        predecessor, and an emptied list loses its tail too. */
    method RemoveFromStart(node: ListNode<T>)
      requires Valid() && |Nodes| > 0 && Nodes[0] == node
      modifies this, Nodes
      ensures Valid()
      ensures Nodes == RemoveAt(old(Nodes), 0) && Items == RemoveAt(old(Items), 0)
      ensures node.Next == null && node.Prev == null
    {
      ghost var n := Nodes;
      Unique(n, head, tail, 0);
      if |n| > 1 { Unique(n, head, tail, 1); }
      head := node.Next;
      if head == null {
        tail := null;
      } else {
        head.Prev := null;
        node.Prev := null;
        node.Next := null;
      }
      Count := Count - 1;
      Nodes := RemoveAt(n, 0);
      Items := RemoveAt(Items, 0);
    }

    /** Unlinks the node at position `k`, which has a predecessor, and counts it
        out: the predecessor is bridged to the successor, or becomes the tail. */
    method RemoveFromMiddle(node: ListNode<T>, ghost k: nat)
      requires Valid() && 0 < k < |Nodes| && Nodes[k] == node
      modifies this, Nodes
      ensures Valid()
      ensures Nodes == RemoveAt(old(Nodes), k) && Items == RemoveAt(old(Items), k)
      ensures node.Next == null && node.Prev == null
    {
      ghost var n := Nodes;
      assert node.Prev == n[k - 1];
      Unique(n, head, tail, k - 1);
      Unique(n, head, tail, k);
      if k + 1 < |n| { Unique(n, head, tail, k + 1); }
      node.Prev.Next := node.Next;
      if node.Next == null {
        tail := node.Prev;
        node.Prev := null;
      } else {
        node.Next.Prev := node.Prev;
        node.Prev := null;
        node.Next := null;
      }
      Count := Count - 1;
      Nodes := RemoveAt(n, k);
      Items := RemoveAt(Items, k);
      ghost var m := Nodes;
      forall j {:trigger m[j].Next} | 0 <= j < |m| - 1
        ensures m[j].Next == m[j + 1]
      {
        if j < k - 1 {
          assert m[j] == n[j] && m[j + 1] == n[j + 1];
        } else if j >= k {
          assert m[j] == n[j + 1] && m[j + 1] == n[j + 2];
        }
      }
      forall j {:trigger m[j].Prev} | 0 < j < |m|
        ensures m[j].Prev == m[j - 1]
      {
        if j < k {
          assert m[j] == n[j] && m[j - 1] == n[j - 1];
        } else if j > k {
          assert m[j] == n[j + 1] && m[j - 1] == n[j];
        }
      }
    }

    /** `CopyTo` as written: `dest.Length` is read before the null check, so a
        null dest raises a null reference and never the argument-null error; the
        size check, an unchecked int subtraction that wraps for an index far
        below zero, comes before the range check; and the copy writes
        `dest[++arrayIndex]`, so the values land one slot to the right of
        `arrayIndex`, and the last write falls off an array that has exactly
        `Count` slots from `arrayIndex` on. */
    method CopyToAsWritten(dest: array?<T>, arrayIndex: int) returns (o: Outcome)
      requires Valid()
      requires Int32Min <= arrayIndex <= Int32Max && (dest != null ==> dest.Length <= Int32Max)
      modifies dest
      ensures Valid() && Items == old(Items)
      ensures o != Fails(ArgumentNull)
      ensures dest == null ==> o == Fails(NullReference)
      ensures dest != null && (Wrap(dest.Length - arrayIndex) as int) < Count ==> o == Fails(Argument)
      ensures dest != null && Count <= Wrap(dest.Length - arrayIndex) as int && (arrayIndex < 0 || dest.Length < arrayIndex) ==>
                o == Fails(ArgumentOutOfRange)
      ensures dest != null && (o == Fails(Argument) || o == Fails(ArgumentOutOfRange)) ==> dest[..] == old(dest[..])
      ensures dest != null && 0 <= arrayIndex <= dest.Length && (Count < dest.Length - arrayIndex || Count == 0) ==>
                && o == Done
                && (forall j :: 0 <= j < Count ==> dest[arrayIndex + 1 + j] == Items[j])
                && (forall j :: 0 <= j <= arrayIndex && j < dest.Length ==> dest[j] == old(dest[j]))
                && (forall j :: arrayIndex + Count < j < dest.Length ==> dest[j] == old(dest[j]))
      ensures dest != null && 0 <= arrayIndex && 0 < Count == dest.Length - arrayIndex ==>
                && o == Fails(IndexOutOfRange)
                && (forall j :: 0 <= j < Count - 1 ==> dest[arrayIndex + 1 + j] == Items[j])
                && (forall j :: 0 <= j <= arrayIndex ==> dest[j] == old(dest[j]))
    {
      if dest == null {
        return Fails(NullReference);
      }
      if (Wrap(dest.Length - arrayIndex) as int) < Count {
        return Fails(Argument);
      }
      if arrayIndex < 0 || dest.Length < arrayIndex {
        return Fails(ArgumentOutOfRange);
      }
      var current := head;
      var index := arrayIndex;
      ghost var k := 0;
      while current != null
        invariant k <= |Nodes| && index == arrayIndex + k
        invariant current == (if k < |Nodes| then Nodes[k] else null)
        invariant k == 0 || index < dest.Length
        invariant forall j :: 0 <= j < k ==> dest[arrayIndex + 1 + j] == Items[j]
        invariant forall j :: 0 <= j < dest.Length && !(arrayIndex < j <= index) ==> dest[j] == old(dest[j])
        decreases |Nodes| - k
      {
        index := index + 1;
        if index >= dest.Length {
          return Fails(IndexOutOfRange);
        }
        dest[index] := current.Data;
        current := current.Next;
        k := k + 1;
      }
      return Done;
    }

    /** `CopyTo` as evidently intended: null, range and size checks first, none of
        which writes, then the values front to back from `arrayIndex` on. */
    method CopyTo(dest: array?<T>, arrayIndex: int) returns (o: Outcome)
      requires Valid()
      modifies dest
      ensures Valid() && Items == old(Items)
      ensures dest == null ==> o == Fails(ArgumentNull)
      ensures dest != null && (arrayIndex < 0 || dest.Length < arrayIndex) ==> o == Fails(ArgumentOutOfRange)
      ensures dest != null && 0 <= arrayIndex <= dest.Length && dest.Length - arrayIndex < Count ==> o == Fails(Argument)
      ensures dest != null && o.Fails? ==> dest[..] == old(dest[..])
      ensures dest != null && 0 <= arrayIndex && Count <= dest.Length - arrayIndex ==>
                && o == Done
                && dest[arrayIndex..arrayIndex + Count] == Items
                && dest[..arrayIndex] == old(dest[..arrayIndex])
                && dest[arrayIndex + Count..] == old(dest[arrayIndex + Count..])
    {
      if dest == null {
        return Fails(ArgumentNull);
      }
      if arrayIndex < 0 || dest.Length < arrayIndex {
        return Fails(ArgumentOutOfRange);
      }
      if dest.Length - arrayIndex < Count {
        return Fails(Argument);
      }
      var current := head;
      var index := arrayIndex;
      ghost var k := 0;
      while current != null
        invariant k <= |Nodes| && index == arrayIndex + k
        invariant current == (if k < |Nodes| then Nodes[k] else null)
        invariant dest[arrayIndex..index] == Items[..k]
        invariant dest[..arrayIndex] == old(dest[..arrayIndex])
        invariant dest[arrayIndex + Count..] == old(dest[arrayIndex + Count..])
        decreases |Nodes| - k
      {
        dest[index] := current.Data;
        index := index + 1;
        current := current.Next;
        k := k + 1;
      }
      return Done;
    }
  }

  /** Adding 1, 2, 1, 4 and removing 1 twice leaves 2 and 4, without 1. */
  lemma RemoveTwiceScenario()
    ensures RemoveFirst(RemoveFirst([1, 2, 1, 4], 1), 1) == [2, 4]
    ensures 1 !in RemoveFirst(RemoveFirst([1, 2, 1, 4], 1), 1)
  {
    assert FirstIndex([1, 2, 1, 4], 1) == 0;
    assert [1, 2, 1, 4][1..] == [2, 1, 4];
    assert FirstIndex([2, 1, 4], 1) == 1;
  }
}
