/** The sorted doubly-linked list: every insertion walks from the front to the
    first strictly greater value and links the new node in just before it, so the
    values stay in non-decreasing order. Values are integers, ordered by `<`. */
module SortedLinkedList {
  import opened Exceptions
  import opened Sequences
  import opened DoublyLinkedList

  /** Non-decreasing from front to back. */
  predicate Sorted(s: seq<int>)
  {
    forall i, j :: 0 <= i < j < |s| ==> s[i] <= s[j]
  }

  /** Where an insertion scan stops: the first position holding a value strictly
      greater than `x`, or `|s|` when there is none. */
  function UpperBound(s: seq<int>, x: int): (i: nat)
    ensures i <= |s|
    ensures forall k :: 0 <= k < i ==> s[k] <= x
    ensures i < |s| ==> x < s[i]
  {
    if s == [] then 0
    else if x < s[0] then 0
    else 1 + UpperBound(s[1..], x)
  }

  /** A scan that passes only values at most `x` and stops at a greater one, or
      at the end, stops at the upper bound. */
  lemma {:induction false} UpperBoundIsScanStop(s: seq<int>, x: int, i: nat)
    requires i <= |s| && (forall k :: 0 <= k < i ==> s[k] <= x) && (i < |s| ==> x < s[i])
    ensures i == UpperBound(s, x)
  {
    if s != [] && s[0] <= x {
      UpperBoundIsScanStop(s[1..], x, i - 1);
    }
  }

  /** The contents after adding `x`. */
  function Inserted(s: seq<int>, x: int): (r: seq<int>)
    ensures |r| == |s| + 1 && r[UpperBound(s, x)] == x
  {
    InsertAt(s, UpperBound(s, x), x)
  }

  /** Adding keeps a sorted list sorted, and is stable: the new value comes after
      every value equal to it and before every greater one. */
  lemma InsertedProperties(s: seq<int>, x: int)
    requires Sorted(s)
    ensures Sorted(Inserted(s, x))
    ensures multiset(Inserted(s, x)) == multiset(s) + multiset{x}
    ensures forall k :: 0 <= k < UpperBound(s, x) ==> s[k] <= x
    ensures forall k :: UpperBound(s, x) <= k < |s| ==> x < s[k]
  {
    AboveUpperBound(s, x);
    InsertedSorted(s, x);
    InsertedContents(s, x);
  }

  /** Adding keeps every value and adds `x` once. */
  lemma InsertedContents(s: seq<int>, x: int)
    ensures multiset(Inserted(s, x)) == multiset(s) + multiset{x}
  {
    var i := UpperBound(s, x);
    assert Inserted(s, x) == s[..i] + [x] + s[i..];
    assert s == s[..i] + s[i..];
  }

  /** In a sorted list every value from the upper bound on is greater than `x`. */
  lemma AboveUpperBound(s: seq<int>, x: int)
    requires Sorted(s)
    ensures forall k :: UpperBound(s, x) <= k < |s| ==> x < s[k]
  {
    var i := UpperBound(s, x);
    forall k | i <= k < |s|
      ensures x < s[k]
    {
      assert s[i] <= s[k];
    }
  }

  /** The order part of `InsertedProperties`. */
  lemma InsertedSorted(s: seq<int>, x: int)
    requires Sorted(s)
    requires forall k :: UpperBound(s, x) <= k < |s| ==> x < s[k]
    ensures Sorted(Inserted(s, x))
  {
    var i := UpperBound(s, x);
    var r := Inserted(s, x);
    forall a, b | 0 <= a < b < |r|
      ensures r[a] <= r[b]
    {
      if b == i {
        assert r[a] == s[a];
      } else if a == i {
        assert r[b] == s[b - 1];
      } else if a < i {
        assert r[a] == s[a] && (b < i ==> r[b] == s[b]) && (b > i ==> r[b] == s[b - 1]);
      } else {
        assert r[a] == s[a - 1] && r[b] == s[b - 1];
      }
    }
  }

  /** Removing any element keeps a sorted list sorted. */
  lemma RemoveAtKeepsSorted(s: seq<int>, k: nat)
    requires Sorted(s) && k < |s|
    ensures Sorted(RemoveAt(s, k))
  {
    var r := RemoveAt(s, k);
    forall a, b | 0 <= a < b < |r|
      ensures r[a] <= r[b]
    {
      var a' := if a < k then a else a + 1;
      var b' := if b < k then b else b + 1;
      assert r[a] == s[a'] && r[b] == s[b'];
    }
  }

  class SortedLinkedList {
    var front: ListNode?<int>
    var back: ListNode?<int>
    var Count: nat

    /** The nodes from front to back, and the values they hold. */
    ghost var Nodes: seq<ListNode<int>>
    ghost var Items: seq<int>

    /** The links and the values, without the count and the order: the linking
        helpers run before `Count` is adjusted. */
    ghost predicate Linked()
      reads this, Nodes
    {
      Chain(Nodes, front, back) && Holds(Nodes, Items)
    }

    /** The object invariant: linked, counted, and sorted. */
    ghost predicate Valid()
      reads this, Nodes
    {
      Linked() && Count == |Nodes| && Sorted(Items)
    }

    constructor ()
      ensures Valid() && Items == [] && Nodes == []
    {
      front := null;
      back := null;
      Count := 0;
      Nodes := [];
      Items := [];
    }

    /** Inserts `item` before the first strictly greater value, found by a scan
        from the front, and counts it. */
    method Add(item: int)
      requires Valid()
      modifies this, Nodes
      ensures Valid() && Count == old(Count) + 1
      ensures Items == Inserted(old(Items), item)
      ensures Nodes == InsertAt(old(Nodes), UpperBound(old(Items), item), Nodes[UpperBound(old(Items), item)])
      ensures fresh(Nodes[UpperBound(old(Items), item)])
    {
      var node := new ListNode(item);
      if front == null {
        AddNodeEmptyList(node);
      } else {
        var index := ScanForInsertion(item);
        AddNodeAtIndex(node, index);
      }
      InsertedProperties(old(Items), item);
      Count := Count + 1;
    }

    /** The scan of `Add`: counts the nodes from the front up to the first one
        holding a value strictly greater than `item`. */
    method ScanForInsertion(item: int) returns (index: nat)
      requires Valid()
      ensures index == UpperBound(Items, item)
    {
      index := 0;
      var current := front;
      while current != null
        invariant index <= |Nodes| && current == (if index < |Nodes| then Nodes[index] else null)
        invariant forall k :: 0 <= k < index ==> Items[k] <= item
        decreases |Nodes| - index
      {
        if item < current.Data {
          break;
        }
        index := index + 1;
        current := current.Next;
      }
      UpperBoundIsScanStop(Items, item, index);
    }

    /** Links a detached node in at position `index`: at the front, at the back,
        or in between. */
    method AddNodeAtIndex(node: ListNode<int>, index: nat)
      requires Linked() && Count == |Nodes| && index <= Count
      requires node !in Nodes && node.Next == null && node.Prev == null
      modifies this, Nodes, node
      ensures Linked() && Count == old(Count)
      ensures Nodes == InsertAt(old(Nodes), index, node) && Items == InsertAt(old(Items), index, node.Data)
    {
      if index == 0 {
        AddFront(node);
      } else if index == Count {
        AddBack(node);
      } else {
        AddMiddle(node, index);
      }
    }

    /** Links a detached node in at the front. */
    method AddFront(node: ListNode<int>)
      requires Linked() && node !in Nodes && node.Next == null && node.Prev == null
      modifies this, front, node
      ensures Linked() && Count == old(Count)
      ensures Nodes == [node] + old(Nodes) && Items == [node.Data] + old(Items)
    {
      if front == null {
        AddNodeEmptyList(node);
      } else {
        AddNodeToFront(node);
      }
    }

    /** Links a detached node in at the back. */
    method AddBack(node: ListNode<int>)
      requires Linked() && node !in Nodes && node.Next == null && node.Prev == null
      modifies this, back, node
      ensures Linked() && Count == old(Count)
      ensures Nodes == old(Nodes) + [node] && Items == old(Items) + [node.Data]
    {
      if front == null {
        AddNodeEmptyList(node);
      } else {
        AddNodeToBack(node);
      }
    }

    /** Makes a detached node the whole of an empty list. */
    method AddNodeEmptyList(node: ListNode<int>)
      requires Linked() && Nodes == [] && node.Next == null && node.Prev == null
      modifies this
      ensures Linked() && Count == old(Count)
      ensures Nodes == [node] && Items == [node.Data]
    {
      front := node;
      back := node;
      Nodes := [node];
      Items := [node.Data];
    }

    /** Links a detached node in before the front of a non-empty list. */
    method AddNodeToFront(node: ListNode<int>)
      requires Linked() && Nodes != [] && node !in Nodes && node.Next == null && node.Prev == null
      modifies this, front, node
      ensures Linked() && Count == old(Count)
      ensures Nodes == [node] + old(Nodes) && Items == [node.Data] + old(Items)
    {
      ghost var n := Nodes;
      Unique(n, front, back, 0);
      node.Next := front;
      front.Prev := node;
      front := node;
      Nodes := [node] + n;
      Items := [node.Data] + Items;
      ghost var m := Nodes;
      forall j {:trigger m[j].Next} | 0 <= j < |m| - 1
        ensures m[j].Next == m[j + 1]
      {
        if j > 0 {
          assert m[j] == n[j - 1] && m[j + 1] == n[j];
        }
      }
      forall j {:trigger m[j].Prev} | 0 < j < |m|
        ensures m[j].Prev == m[j - 1]
      {
        if j > 1 {
          assert m[j] == n[j - 1] && m[j - 1] == n[j - 2];
        }
      }
    }

    /** Links a detached node in after the back of a non-empty list. */
    method AddNodeToBack(node: ListNode<int>)
      requires Linked() && Nodes != [] && node !in Nodes && node.Next == null && node.Prev == null
      modifies this, back, node
      ensures Linked() && Count == old(Count)
      ensures Nodes == old(Nodes) + [node] && Items == old(Items) + [node.Data]
    {
      back.Next := node;
      node.Prev := back;
      back := node;
      Nodes := Nodes + [node];
      Items := Items + [node.Data];
    }

    /** Walks to the node at position `index`, strictly inside the list, and links
        the detached node in just before it. */
    method AddMiddle(node: ListNode<int>, index: nat)
      requires Linked() && 0 < index < |Nodes|
      requires node !in Nodes && node.Next == null && node.Prev == null
      modifies this, Nodes, node
      ensures Linked() && Count == old(Count)
      ensures Nodes == InsertAt(old(Nodes), index, node) && Items == InsertAt(old(Items), index, node.Data)
    {
      var currentIndex := 0;
      var current := front;
      while current != null && currentIndex != index
        invariant currentIndex <= index && current == Nodes[currentIndex]
        decreases index - currentIndex
      {
        currentIndex := currentIndex + 1;
        current := current.Next;
      }
      LinkBefore(node, current, index);
    }

    /** The hit branch of `AddMiddle`: the detached node takes the place between
        the node at position `index` and its predecessor. */
    method LinkBefore(node: ListNode<int>, current: ListNode?<int>, ghost index: nat)
      requires Linked() && 0 < index < |Nodes| && current == Nodes[index]
      requires node !in Nodes && node.Next == null && node.Prev == null
      modifies this, Nodes, node
      ensures Linked() && Count == old(Count)
      ensures Nodes == InsertAt(old(Nodes), index, node) && Items == InsertAt(old(Items), index, node.Data)
    {
      ghost var n := Nodes;
      assert current.Prev == n[index - 1];
      Unique(n, front, back, index - 1);
      Unique(n, front, back, index);
      node.Next := current;
      node.Prev := current.Prev;
      current.Prev.Next := node;
      current.Prev := node;
      Nodes := InsertAt(n, index, node);
      Items := InsertAt(Items, index, node.Data);
      ghost var m := Nodes;
      forall j {:trigger m[j].Next} | 0 <= j < |m| - 1
        ensures m[j].Next == m[j + 1]
      {
        if j < index - 1 {
          assert m[j] == n[j] && m[j + 1] == n[j + 1];
        } else if j > index {
          assert m[j] == n[j - 1] && m[j + 1] == n[j];
        }
      }
      forall j {:trigger m[j].Prev} | 0 < j < |m|
        ensures m[j].Prev == m[j - 1]
      {
        if j < index {
          assert m[j] == n[j] && m[j - 1] == n[j - 1];
        } else if j > index + 1 {
          assert m[j] == n[j - 1] && m[j - 1] == n[j - 2];
        }
      }
    }

    /** An operation that needs an element fails on an empty list. */
    function ValidateNotEmpty(): (o: Outcome)
      reads this
      ensures o.Fails? <==> Count == 0
      ensures o.Fails? ==> o.error == InvalidOperation
    {
      if Count == 0 then Fails(InvalidOperation) else Done
    }

    /** Unlinks the first node holding `item` and counts it out; an empty list is
        an error, a miss changes nothing. */
    method Remove(item: int) returns (r: Result<bool>)
      requires Valid()
      modifies this, Nodes
      ensures Valid()
      ensures old(Count) == 0 ==> r == Throws(InvalidOperation) && Items == old(Items)
      ensures old(Count) > 0 ==> r == Ok(item in old(Items))
      ensures old(Count) > 0 ==> Items == RemoveFirst(old(Items), item)
      ensures Count == |Items|
    {
      var v := ValidateNotEmpty();
      if v.Fails? {
        return Throws(v.error);
      }
      var previous: ListNode?<int> := null;
      var current := front;
      ghost var k := 0;
      while current != null
        invariant Valid() && Nodes == old(Nodes) && Items == old(Items)
        invariant k <= |Nodes| && current == (if k < |Nodes| then Nodes[k] else null)
        invariant previous == (if k == 0 then null else Nodes[k - 1])
        invariant forall j :: 0 <= j < k ==> Items[j] != item
        decreases |Nodes| - k
      {
        if current.Data == item {
          assert Items[k] == item;
          assert FirstIndex(Items, item) == k;
          Unlink(current, previous, k);
          return Ok(true);
        }
        previous := current;
        current := current.Next;
        k := k + 1;
      }
      assert FirstIndex(Items, item) == |Items|;
      return Ok(false);
    }

    /** The hit branch of `Remove`: unlinks the node at position `k`, whose
        predecessor is `previous`, and counts it out. */
    method Unlink(node: ListNode<int>, previous: ListNode?<int>, ghost k: nat)
      requires Valid() && k < |Nodes| && Nodes[k] == node
      requires previous == (if k == 0 then null else Nodes[k - 1])
      modifies this, Nodes
      ensures Valid()
      ensures Nodes == RemoveAt(old(Nodes), k) && Items == RemoveAt(old(Items), k)
    {
      RemoveAtKeepsSorted(Items, k);
      if previous != null {
        RemoveFromMiddle(node, k);
      } else {
        RemoveFromStart();
      }
      Count := Count - 1;
    }

    /** Unlinks the front node of a non-empty list. */
    method RemoveFromStart()
      requires Linked() && |Nodes| > 0
      modifies this, Nodes
      ensures Linked() && Count == old(Count)
      ensures Nodes == RemoveAt(old(Nodes), 0) && Items == RemoveAt(old(Items), 0)
    {
      ghost var n := Nodes;
      Unique(n, front, back, 0);
      if |n| > 1 { Unique(n, front, back, 1); }
      var backup := front;
      front := front.Next;
      if front == null {
        back := null;
      } else {
        front.Prev := null;
        backup.Next := null;
      }
      Nodes := RemoveAt(n, 0);
      Items := RemoveAt(Items, 0);
    }

    /** Unlinks the node at position `k`, which has a predecessor: the predecessor
        is bridged to the successor, or becomes the back. */
    method RemoveFromMiddle(node: ListNode<int>, ghost k: nat)
      requires Linked() && 0 < k < |Nodes| && Nodes[k] == node
      modifies this, Nodes
      ensures Linked() && Count == old(Count)
      ensures Nodes == RemoveAt(old(Nodes), k) && Items == RemoveAt(old(Items), k)
    {
      ghost var n := Nodes;
      var previous := node.Prev;
      assert previous == n[k - 1];
      Unique(n, front, back, k - 1);
      Unique(n, front, back, k);
      if k + 1 < |n| { Unique(n, front, back, k + 1); }
      previous.Next := node.Next;
      if previous.Next == null {
        back := previous;
      } else {
        previous.Next.Prev := previous;
        node.Next := null;
        node.Prev := null;
      }
      Nodes := RemoveAt(n, k);
      Items := RemoveAt(Items, k);
      ghost var m := Nodes;
      forall j {:trigger m[j].Next} | 0 <= j < |m| - 1
        ensures m[j].Next == m[j + 1]
      {
        if j < k - 1 {
          assert m[j] == n[j] && m[j + 1] == n[j + 1];
        } else if j >= k {
          assert m[j] == n[j + 1] && m[j + 1] == n[j + 2];
        }
      }
      forall j {:trigger m[j].Prev} | 0 < j < |m|
        ensures m[j].Prev == m[j - 1]
      {
        if j < k {
          assert m[j] == n[j] && m[j - 1] == n[j - 1];
        } else if j > k {
          assert m[j] == n[j + 1] && m[j - 1] == n[j];
        }
      }
    }

    /** The first node holding `item`, or null; nothing changes. */
    method Get(item: int) returns (r: ListNode?<int>)
      requires Valid()
      ensures r == null <==> item !in Items
      ensures r != null ==> r == Nodes[FirstIndex(Items, item)] && r.Data == item
    {
      var current := front;
      ghost var k := 0;
      while current != null
        invariant k <= |Nodes| && current == (if k < |Nodes| then Nodes[k] else null)
        invariant forall j :: 0 <= j < k ==> Items[j] != item
        decreases |Nodes| - k
      {
        if current.Data == item {
          assert Items[k] == item;
          assert FirstIndex(Items, item) == k;
          return current;
        }
        current := current.Next;
        k := k + 1;
      }
      return null;
    }

    /** Whether some node holds `item`. */
    method Contains(item: int) returns (b: bool)
      requires Valid()
      ensures b <==> item in Items
    {
      var node := Get(item);
      b := node != null;
    }

    /** Forgets every node; the nodes keep their links. */
    method Clear()
      modifies this
      ensures Valid() && Count == 0 && Items == [] && front == null && back == null
    {
      front := null;
      back := null;
      Count := 0;
      Nodes := [];
      Items := [];
    }

    /** Copies the values front to back into `dest` from `arrayIndex` on, after
        checking the arguments; a failed check writes nothing. */
    method CopyTo(dest: array?<int>, arrayIndex: int) returns (o: Outcome)
      requires Valid()
      modifies dest
      ensures Valid() && Items == old(Items)
      ensures dest == null ==> o == Fails(ArgumentNull)
      ensures dest != null && (arrayIndex < 0 || dest.Length < arrayIndex) ==> o == Fails(ArgumentOutOfRange)
      ensures dest != null && 0 <= arrayIndex <= dest.Length && dest.Length - arrayIndex < Count ==> o == Fails(Argument)
      ensures dest != null && o.Fails? ==> dest[..] == old(dest[..])
      ensures dest != null && 0 <= arrayIndex && Count <= dest.Length - arrayIndex ==>
                && o == Done
                && dest[arrayIndex..arrayIndex + Count] == Items
                && dest[..arrayIndex] == old(dest[..arrayIndex])
                && dest[arrayIndex + Count..] == old(dest[arrayIndex + Count..])
    {
      if dest == null {
        return Fails(ArgumentNull);
      }
      if arrayIndex < 0 || dest.Length < arrayIndex {
        return Fails(ArgumentOutOfRange);
      }
      if dest.Length - arrayIndex < Count {
        return Fails(Argument);
      }
      var current := front;
      var index := arrayIndex;
      ghost var k := 0;
      while current != null
        invariant k <= |Nodes| && index == arrayIndex + k
        invariant current == (if k < |Nodes| then Nodes[k] else null)
        invariant dest[arrayIndex..index] == Items[..k]
        invariant dest[..arrayIndex] == old(dest[..arrayIndex])
        invariant dest[arrayIndex + Count..] == old(dest[arrayIndex + Count..])
        decreases |Nodes| - k
      {
        dest[index] := current.Data;
        index := index + 1;
        current := current.Next;
        k := k + 1;
      }
      return Done;
    }

    /** The value at the front of a non-empty list: its least value. */
    function Front(): (x: int)
      requires Valid() && Count > 0
      reads this, Nodes
      ensures x == Items[0]
      ensures forall k :: 0 <= k < |Items| ==> x <= Items[k]
    {
      front.Data
    }

    /** The value at the back of a non-empty list: its greatest value. */
    function Back(): (x: int)
      requires Valid() && Count > 0
      reads this, Nodes
      ensures x == Items[|Items| - 1]
      ensures forall k :: 0 <= k < |Items| ==> Items[k] <= x
    {
      back.Data
    }
  }
}
