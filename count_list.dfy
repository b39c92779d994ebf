/** The access-count self-organising doubly-linked list: every successful lookup
    increments the found node's access count and swaps the node towards the front
    past every predecessor with a strictly smaller count. */
module SelfOrganizingCountList {
  import opened Exceptions
  import opened Sequences
  import opened AccessCountOrder

  /** A node of the list: its value, its links and its access count. */
  class ListNode<T> {
    const Data: T
    var Next: ListNode?<T>
    var Prev: ListNode?<T>
    var Count: nat

    constructor (data: T)
      ensures Data == data && Next == null && Prev == null && Count == 0
    {
      Data := data;
      Next := null;
      Prev := null;
      Count := 0;
    }
  }

  /** `entries` records, position by position, the value and access count held
      by `nodes`. */
  ghost predicate Records<T>(nodes: seq<ListNode<T>>, entries: seq<Entry<T>>)
    reads nodes`Count
  {
    && |entries| == |nodes|
    && forall k :: 0 <= k < |nodes| ==> entries[k] == Entry(nodes[k].Data, nodes[k].Count)
  }

  lemma RecordsAppend<T>(nodes: seq<ListNode<T>>, entries: seq<Entry<T>>, node: ListNode<T>)
    requires Records(nodes, entries)
    ensures Records(nodes + [node], entries + [Entry(node.Data, node.Count)])
  {
  }

  lemma RecordsSwap<T>(nodes: seq<ListNode<T>>, entries: seq<Entry<T>>, k: nat)
    requires Records(nodes, entries) && k + 1 < |nodes|
    ensures Records(Swap(nodes, k), Swap(entries, k))
  {
  }

  lemma RecordsRemoveAt<T>(nodes: seq<ListNode<T>>, entries: seq<Entry<T>>, k: nat)
    requires Records(nodes, entries) && k < |nodes|
    ensures Records(RemoveAt(nodes, k), RemoveAt(entries, k))
  {
  }

  class LinkedList<T(==)> {
    var front: ListNode?<T>
    var back: ListNode?<T>
    var Count: nat

    /** The nodes front to back, and the value and access count each holds. */
    ghost var Nodes: seq<ListNode<T>>
    ghost var Entries: seq<Entry<T>>

    /** The links: `front`/`back` at the two ends, each `Prev` and `Next` pointing at
        the neighbour, null past either end. */
    ghost predicate Chain()
      reads this`front, this`back, this`Nodes, Nodes
    {
      && front == (if |Nodes| == 0 then null else Nodes[0])
      && back == (if |Nodes| == 0 then null else Nodes[|Nodes| - 1])
      && (|Nodes| > 0 ==> Nodes[0].Prev == null && Nodes[|Nodes| - 1].Next == null)
      && (forall k {:trigger Nodes[k].Next} :: 0 <= k < |Nodes| - 1 ==> Nodes[k].Next == Nodes[k + 1])
      && (forall k {:trigger Nodes[k].Prev} :: 0 < k < |Nodes| ==> Nodes[k].Prev == Nodes[k - 1])
    }

    /** The links make the nodes distinct: a node occurring twice would have the
        same predecessor at both places, and so on back to the front, whose
        predecessor is null. */
    lemma {:induction false} NodesDistinct(i: nat, j: nat)
      requires Chain() && i < |Nodes| && j < |Nodes| && i != j
      ensures Nodes[i] != Nodes[j]
      decreases i + j
    {
      assert i == 0 || Nodes[i].Prev == Nodes[i - 1];
      assert j == 0 || Nodes[j].Prev == Nodes[j - 1];
      if i > 0 && j > 0 {
        NodesDistinct(i - 1, j - 1);
      }
    }

    /** No other node is the one at position `j`. */
    lemma Unique(j: nat)
      requires Chain() && j < |Nodes|
      ensures forall k :: 0 <= k < |Nodes| && k != j ==> Nodes[k] != Nodes[j]
    {
      forall k | 0 <= k < |Nodes| && k != j
        ensures Nodes[k] != Nodes[j]
      {
        NodesDistinct(k, j);
      }
    }

    /** A well-formed list: linked, recorded, and counted by `Count`. */
    ghost predicate Linked()
      reads this, Nodes
    {
      Chain() && Records(Nodes, Entries) && Count == |Nodes|
    }

    /** The object invariant: a well-formed list whose access counts never
        increase from front to back. */
    ghost predicate Valid()
      reads this, Nodes
    {
      Linked() && NonIncreasing(Entries)
    }

    constructor ()
      ensures Valid() && Entries == [] && Nodes == []
    {
      front := null;
      back := null;
      Count := 0;
      Nodes := [];
      Entries := [];
    }

    /** Appends `item` at the back with access count 0. */
    method Add(item: T)
      requires Valid()
      modifies this, Nodes
      ensures Valid()
      ensures Count == old(Count) + 1
      ensures Entries == old(Entries) + [Entry(item, 0)]
      ensures Nodes[..old(Count)] == old(Nodes) && fresh(Nodes[old(Count)])
      ensures old(Count) == 0 ==> front == back == Nodes[0]
    {
      var node := new ListNode(item);
      AddBack(node);
      AppendZeroKeepsOrder(old(Entries), item);
      Count := Count + 1;
    }

    /** Links a detached node in at the back. */
    method AddBack(node: ListNode<T>)
      requires Chain() && Records(Nodes, Entries) && node !in Nodes
      requires node.Next == null && node.Prev == null
      modifies this, back, node
      ensures Chain() && Records(Nodes, Entries) && Count == old(Count)
      ensures Nodes == old(Nodes) + [node]
      ensures Entries == old(Entries) + [Entry(node.Data, node.Count)]
      ensures node.Count == old(node.Count)
    {
      if front == null {
        AddNodeEmptyList(node);
      } else {
        AddNodeToBack(node);
      }
    }

    /** Makes a detached node the whole of an empty list. */
    method AddNodeEmptyList(node: ListNode<T>)
      requires Chain() && Nodes == []
      requires node.Next == null && node.Prev == null
      modifies this
      ensures Chain() && Records(Nodes, Entries) && Count == old(Count)
      ensures Nodes == [node] && Entries == [Entry(node.Data, node.Count)]
    {
      front := node;
      back := node;
      Nodes := [node];
      Entries := [Entry(node.Data, node.Count)];
    }

    /** Links a detached node in after the back of a non-empty list. */
    method AddNodeToBack(node: ListNode<T>)
      requires Chain() && Records(Nodes, Entries) && Nodes != [] && node !in Nodes
      requires node.Next == null && node.Prev == null
      modifies this, back, node
      ensures Chain() && Records(Nodes, Entries) && Count == old(Count)
      ensures Nodes == old(Nodes) + [node]
      ensures Entries == old(Entries) + [Entry(node.Data, node.Count)]
      ensures node.Count == old(node.Count)
    {
      back.Next := node;
      node.Prev := back;
      back := node;
      Nodes := Nodes + [node];
      Entries := Entries + [Entry(node.Data, node.Count)];
    }

    /** Looks `item` up from the front; a hit has its access count incremented and
        is promoted, and is returned; a miss returns null and changes nothing. */
    method Get(item: T) returns (r: ListNode?<T>)
      requires Valid()
      modifies this, Nodes
      ensures Valid() && Count == old(Count)
      ensures Entries == Access(old(Entries), item)
      ensures r == null <==> item !in Values(old(Entries))
      ensures r != null ==>
        var i := FirstIndex(Values(old(Entries)), item);
        r == old(Nodes)[i] && r.Data == item && r.Count == old(Entries)[i].count + 1
      ensures r != null ==> r in Nodes
      ensures |Nodes| == |old(Nodes)| && forall k :: 0 <= k < |Nodes| ==> Nodes[k] in old(Nodes)
    {
      var current := front;
      ghost var k := 0;
      while current != null
        invariant Valid() && Nodes == old(Nodes) && Entries == old(Entries) && Count == old(Count)
        invariant k <= |Nodes| && current == (if k < |Nodes| then Nodes[k] else null)
        invariant forall j :: 0 <= j < k ==> Values(Entries)[j] != item
        decreases |Nodes| - k
      {
        if current.Data == item {
          assert Values(Entries)[k] == item;
          assert FirstIndex(Values(Entries), item) == k;
          UpdateCountAndMove(current, k);
          PromoteKeepsOrder(old(Entries), k);
          return current;
        }
        current := current.Next;
        k := k + 1;
      }
      assert FirstIndex(Values(Entries), item) == |Entries|;
      return null;
    }

    /** Whether some node holds `item`; as a lookup, it promotes the node found. */
    method Contains(item: T) returns (b: bool)
      requires Valid()
      modifies this, Nodes
      ensures Valid() && Count == old(Count)
      ensures Entries == Access(old(Entries), item)
      ensures b == (item in Values(old(Entries)))
      ensures |Nodes| == |old(Nodes)| && forall k :: 0 <= k < |Nodes| ==> Nodes[k] in old(Nodes)
    {
      var node := Get(item);
      b := node != null;
    }

    /** Increments the access count of the node at position `i`, then swaps it
        with its predecessor for as long as the predecessor's count is strictly
        smaller. */
    method UpdateCountAndMove(node: ListNode<T>, ghost i: nat)
      requires Linked() && i < |Nodes| && Nodes[i] == node
      modifies this, Nodes
      ensures Linked() && Count == old(Count)
      ensures Entries == Promote(old(Entries), i)
      ensures node.Count == old(node.Count) + 1
      ensures |Nodes| == |old(Nodes)| && forall k :: 0 <= k < |Nodes| ==> Nodes[k] in old(Nodes)
      ensures Nodes[ShiftTarget(old(Entries), i, old(Entries)[i].count + 1)] == node
    {
      ghost var s := Entries;
      ghost var c := s[i].count + 1;
      Unique(i);
      node.Count := node.Count + 1;
      Entries := Entries[i := Bumped(s, i)];
      ghost var p: nat := i;
      var cur := node;
      while cur.Prev != null && cur.Prev.Count < cur.Count
        invariant Chain() && Records(Nodes, Entries) && Count == old(Count)
        invariant forall k :: 0 <= k < |Nodes| ==> Nodes[k] in old(Nodes)
        invariant p <= i && |Nodes| == |s| && Nodes[p] == cur && cur == node
        invariant Entries == Moving(s, i, p)
        invariant node.Count == c
        invariant ShiftTarget(s, p, c) == ShiftTarget(s, i, c)
        decreases p
      {
        cur, p := ShiftStep(cur, s, i, p, old(Nodes));
      }
      if p > 0 {
        assert cur.Prev == Nodes[p - 1];
        MovingShape(s, i, p);
        assert Entries[p - 1] == s[p - 1];
      }
      assert ShiftTarget(s, p, c) == p;
    }

    /** One iteration of the loop of `UpdateCountAndMove`: the promoted node, at
        position `p` of the promotion of entry `i` of `s`, has a predecessor with a
        smaller count and is shifted past it. */
    method ShiftStep(node: ListNode<T>, ghost s: seq<Entry<T>>, ghost i: nat, ghost p: nat,
                     ghost t: seq<ListNode<T>>)
      returns (r: ListNode<T>, ghost q: nat)
      requires Chain() && Records(Nodes, Entries)
      requires p <= i < |s| == |Nodes| && Nodes[p] == node
      requires forall k :: 0 <= k < |Nodes| ==> Nodes[k] in t
      requires Entries == Moving(s, i, p)
      requires node.Prev != null && node.Prev.Count < node.Count
      modifies this, Nodes
      ensures Chain() && Records(Nodes, Entries) && Count == old(Count)
      ensures forall k :: 0 <= k < |Nodes| ==> Nodes[k] in t
      ensures |Nodes| == |s| && q + 1 == p && r == node && Nodes[q] == node
      ensures Entries == Moving(s, i, q)
      ensures node.Count == old(node.Count)
      ensures ShiftTarget(s, q, node.Count) == ShiftTarget(s, p, node.Count)
    {
      assert node.Prev == Nodes[p - 1];
      MovingShape(s, i, p);
      assert Entries[p - 1] == s[p - 1];
      SwapWithin(Nodes, p - 1, t);
      r := ShiftLeft(node, p);
      q := p - 1;
    }

    /** Makes the node at position `p` trade places with its predecessor and returns
        it; a node already at the front stays where it is and the front is returned. */
    method ShiftLeft(node: ListNode<T>, ghost p: nat) returns (r: ListNode<T>)
      requires Chain() && |Entries| == |Nodes| && p < |Nodes| && Nodes[p] == node
      modifies this, Nodes
      ensures Chain() && Count == old(Count)
      ensures p == 0 ==> Nodes == old(Nodes) && Entries == old(Entries) && r == front
      ensures p > 0 ==> Nodes == Swap(old(Nodes), p - 1) && Entries == Swap(old(Entries), p - 1) && r == node
      ensures forall x :: x in old(Nodes) ==> x.Count == old(x.Count)
    {
      ghost var n := Nodes;
      var prevprev: ListNode?<T> := null;
      var previous := node.Prev;
      var next := node.Next;
      assert previous == (if p == 0 then null else n[p - 1]);
      assert next == (if p + 1 < |n| then n[p + 1] else null);

      if previous == null {
        return front;
      } else {
        Unique(p);
        Unique(p - 1);
        if p > 1 { Unique(p - 2); }
        if p + 1 < |n| { Unique(p + 1); }
        prevprev := previous.Prev;
        assert prevprev == (if p == 1 then null else n[p - 2]);
        previous.Next := next;
        previous.Prev := node;
      }

      if prevprev != null {
        prevprev.Next := node;
      } else {
        front := node;
      }

      if next != null {
        next.Prev := previous;
      } else {
        back := previous;
      }

      node.Prev := prevprev;
      node.Next := previous;
      r := node;

      Nodes := Swap(n, p - 1);
      Entries := Swap(Entries, p - 1);
      SwappedChain(p);
    }

    /** The links after `ShiftLeft` has rewired the nodes around the one at
        position `p` of `n`: a chain again, over `n` with positions `p - 1` and `p`
        exchanged. */
    twostate lemma SwappedChain(p: nat)
      requires old(Chain()) && 0 < p < |old(Nodes)| && Nodes == Swap(old(Nodes), p - 1)
      requires forall k :: 0 <= k < |old(Nodes)| && k != p ==> old(Nodes)[k] != old(Nodes)[p]
      requires forall k :: 0 <= k < |old(Nodes)| && k != p - 1 ==> old(Nodes)[k] != old(Nodes)[p - 1]
      requires p > 1 ==> forall k :: 0 <= k < |old(Nodes)| && k != p - 2 ==> old(Nodes)[k] != old(Nodes)[p - 2]
      requires p + 1 < |old(Nodes)| ==> forall k :: 0 <= k < |old(Nodes)| && k != p + 1 ==> old(Nodes)[k] != old(Nodes)[p + 1]
      requires old(Nodes)[p].Prev == (if p > 1 then old(Nodes)[p - 2] else null) && old(Nodes)[p].Next == old(Nodes)[p - 1]
      requires old(Nodes)[p - 1].Prev == old(Nodes)[p] && old(Nodes)[p - 1].Next == (if p + 1 < |old(Nodes)| then old(Nodes)[p + 1] else null)
      requires p > 1 ==> old(Nodes)[p - 2].Next == old(Nodes)[p]
      requires p + 1 < |old(Nodes)| ==> old(Nodes)[p + 1].Prev == old(Nodes)[p - 1]
      requires front == (if p > 1 then old(front) else old(Nodes)[p])
      requires back == (if p + 1 < |old(Nodes)| then old(back) else old(Nodes)[p - 1])
      requires forall x: ListNode<T> :: old(allocated(x)) && x != old(Nodes)[p] && x != old(Nodes)[p - 1] && (p > 1 ==> x != old(Nodes)[p - 2]) ==> x.Next == old(x.Next)
      requires forall x: ListNode<T> :: old(allocated(x)) && x != old(Nodes)[p] && x != old(Nodes)[p - 1] && (p + 1 < |old(Nodes)| ==> x != old(Nodes)[p + 1]) ==> x.Prev == old(x.Prev)
      ensures Chain()
    {
      var n, m := old(Nodes), Nodes;
      forall k {:trigger m[k].Next} | 0 <= k < |m| - 1
        ensures m[k].Next == m[k + 1]
      {
        if k < p - 2 || k > p {
          assert m[k] == n[k] && m[k + 1] == n[k + 1];
          assert old(n[k].Next) == n[k + 1];
        }
      }
      forall k {:trigger m[k].Prev} | 0 < k < |m|
        ensures m[k].Prev == m[k - 1]
      {
        if k < p - 1 || k > p + 1 {
          assert m[k] == n[k] && m[k - 1] == n[k - 1];
          assert old(n[k].Prev) == n[k - 1];
        }
      }
    }

    /** Fails with `InvalidOperation` on an empty list. */
    function ValidateNotEmpty(): (o: Outcome)
      reads this
      ensures o == Done <==> Count > 0
      ensures o.Fails? ==> o.error == InvalidOperation
    {
      if Count == 0 then Fails(InvalidOperation) else Done
    }

    /** Unlinks the first node holding `item` and answers whether there was one;
        an empty list is refused. */
    method Remove(item: T) returns (r: Result<bool>)
      requires Valid()
      modifies this, Nodes
      ensures Valid()
      ensures old(Count) == 0 ==> r == Throws(InvalidOperation) && Entries == old(Entries)
      ensures old(Count) > 0 ==> r == Ok(item in Values(old(Entries)))
      ensures old(Count) > 0 ==> Entries == RemoveValue(old(Entries), item)
      ensures Count == |Entries|
    {
      var v := ValidateNotEmpty();
      if v.Fails? {
        return Throws(v.error);
      }
      var previous: ListNode?<T> := null;
      var current := front;
      ghost var k := 0;
      while current != null
        invariant Valid() && Nodes == old(Nodes) && Entries == old(Entries) && Count == old(Count)
        invariant k <= |Nodes| && current == (if k < |Nodes| then Nodes[k] else null)
        invariant previous == (if k == 0 then null else Nodes[k - 1])
        invariant forall j :: 0 <= j < k ==> Values(Entries)[j] != item
        decreases |Nodes| - k
      {
        if current.Data == item {
          assert Values(Entries)[k] == item;
          assert FirstIndex(Values(Entries), item) == k;
          Unlink(current, previous, k);
          RemoveAtKeepsOrder(old(Entries), k);
          return Ok(true);
        }
        previous := current;
        current := current.Next;
        k := k + 1;
      }
      assert FirstIndex(Values(Entries), item) == |Entries|;
      return Ok(false);
    }

    /** The hit branch of `Remove`: unlinks the node at position `k`, whose
        predecessor is `previous`, and counts it out. */
    method Unlink(node: ListNode<T>, previous: ListNode?<T>, ghost k: nat)
      requires Linked() && k < |Nodes| && Nodes[k] == node
      requires previous == (if k == 0 then null else Nodes[k - 1])
      modifies this, Nodes
      ensures Linked()
      ensures Nodes == RemoveAt(old(Nodes), k) && Entries == RemoveAt(old(Entries), k)
    {
      if previous != null {
        RemoveFromMiddle(node, k);
      } else {
        RemoveFromStart();
      }
      Count := Count - 1;
    }

    /** Unlinks the front node of a non-empty list. */
    method RemoveFromStart()
      requires Chain() && Records(Nodes, Entries) && |Nodes| > 0
      modifies this, Nodes
      ensures Chain() && Records(Nodes, Entries) && Count == old(Count)
      ensures Nodes == RemoveAt(old(Nodes), 0) && Entries == RemoveAt(old(Entries), 0)
    {
      ghost var n := Nodes;
      Unique(0);
      if |n| > 1 { Unique(1); }
      var backup := front;
      front := front.Next;
      if front == null {
        back := null;
      } else {
        front.Prev := null;
        backup.Next := null;
      }
      Nodes := RemoveAt(n, 0);
      Entries := RemoveAt(Entries, 0);
    }

    /** Unlinks the node at position `k`, which has a predecessor. */
    method RemoveFromMiddle(node: ListNode<T>, ghost k: nat)
      requires Chain() && Records(Nodes, Entries) && 0 < k < |Nodes| && Nodes[k] == node
      modifies this, Nodes
      ensures Chain() && Records(Nodes, Entries) && Count == old(Count)
      ensures Nodes == RemoveAt(old(Nodes), k) && Entries == RemoveAt(old(Entries), k)
    {
      ghost var n := Nodes;
      var previous := node.Prev;
      assert previous == n[k - 1];
      Unique(k - 1);
      Unique(k);
      if k + 1 < |n| { Unique(k + 1); }
      previous.Next := node.Next;
      if previous.Next == null {
        back := previous;
      } else {
        previous.Next.Prev := previous;
        node.Next := null;
        node.Prev := null;
      }
      Nodes := RemoveAt(n, k);
      Entries := RemoveAt(Entries, k);
      ghost var m := Nodes;
      forall j {:trigger m[j].Next} | 0 <= j < |m| - 1
        ensures m[j].Next == m[j + 1]
      {
        if j < k - 1 {
          assert m[j] == n[j] && m[j + 1] == n[j + 1];
        } else if j >= k {
          assert m[j] == n[j + 1] && m[j + 1] == n[j + 2];
        }
      }
      forall j {:trigger m[j].Prev} | 0 < j < |m|
        ensures m[j].Prev == m[j - 1]
      {
        if j < k {
          assert m[j] == n[j] && m[j - 1] == n[j - 1];
        } else if j > k {
          assert m[j] == n[j + 1] && m[j - 1] == n[j];
        }
      }
    }

    /** Empties the list, detaching each node from its successor on the way. */
    method Clear()
      requires Valid()
      modifies this, Nodes
      ensures Valid() && Count == 0 && Nodes == [] && Entries == []
      ensures front == null && back == null
      ensures forall x :: x in old(Nodes) ==> x.Next == null
    {
      ghost var n := Nodes;
      forall a, b | 0 <= a < |n| && 0 <= b < |n| && a != b
        ensures n[a] != n[b]
      {
        NodesDistinct(a, b);
      }
      var current := front;
      ghost var k := 0;
      while current != null
        invariant k <= |n| && current == (if k < |n| then n[k] else null)
        invariant forall j :: 0 <= j < k ==> n[j].Next == null
        invariant forall j :: k <= j < |n| - 1 ==> n[j].Next == n[j + 1]
        invariant k < |n| ==> n[|n| - 1].Next == null
        decreases |n| - k
      {
        var node := current;
        current := current.Next;
        node.Next := null;
        k := k + 1;
      }
      front := null;
      back := null;
      Count := 0;
      Nodes := [];
      Entries := [];
    }

    /** Copies the values front to back into `dest` from `arrayIndex` on, after
        checking the arguments; a failed check writes nothing. */
    method CopyTo(dest: array?<T>, arrayIndex: int) returns (o: Outcome)
      requires Valid()
      modifies dest
      ensures Valid() && Entries == old(Entries)
      ensures dest == null ==> o == Fails(ArgumentNull)
      ensures dest != null && (arrayIndex < 0 || dest.Length < arrayIndex) ==> o == Fails(ArgumentOutOfRange)
      ensures dest != null && 0 <= arrayIndex <= dest.Length && dest.Length - arrayIndex < Count ==> o == Fails(Argument)
      ensures dest != null && o.Fails? ==> dest[..] == old(dest[..])
      ensures dest != null && 0 <= arrayIndex && Count <= dest.Length - arrayIndex ==>
        && o == Done
        && dest[arrayIndex..arrayIndex + Count] == Values(Entries)
        && dest[..arrayIndex] == old(dest[..arrayIndex])
        && dest[arrayIndex + Count..] == old(dest[arrayIndex + Count..])
    {
      if dest == null {
        return Fails(ArgumentNull);
      }
      if arrayIndex < 0 || dest.Length < arrayIndex {
        return Fails(ArgumentOutOfRange);
      }
      if dest.Length - arrayIndex < Count {
        return Fails(Argument);
      }
      var current := front;
      var index := arrayIndex;
      ghost var k := 0;
      while current != null
        invariant k <= |Nodes| && index == arrayIndex + k
        invariant current == (if k < |Nodes| then Nodes[k] else null)
        invariant dest[arrayIndex..index] == Values(Entries)[..k]
        invariant dest[..arrayIndex] == old(dest[..arrayIndex])
        invariant dest[arrayIndex + Count..] == old(dest[arrayIndex + Count..])
        decreases |Nodes| - k
      {
        dest[index] := current.Data;
        index := index + 1;
        current := current.Next;
        k := k + 1;
      }
      return Done;
    }

    /** The value at the front of a non-empty list. */
    function Front(): (x: T)
      requires Valid() && Count > 0
      reads this, Nodes
      ensures x == Values(Entries)[0]
    {
      front.Data
    }

    /** The value at the back of a non-empty list. */
    function Back(): (x: T)
      requires Valid() && Count > 0
      reads this, Nodes
      ensures x == Values(Entries)[Count - 1]
    {
      back.Data
    }
  }
}
