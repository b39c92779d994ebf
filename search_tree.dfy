/** The unbalanced binary search tree as a value: insertion, search and the three
    removal cases, on integer keys. Smaller keys go left, equal and greater keys
    go right. */
module SearchTreeModel {

  datatype SearchTree = Leaf | Node(left: SearchTree, data: int, right: SearchTree)

  /** `Int32.CompareTo`: -1, 0 or 1 as `a` is below, equal to or above `b`. */
  function Compare(a: int, b: int): (c: int)
    ensures c == -1 || c == 0 || c == 1
    ensures c < 0 <==> a < b
    ensures c == 0 <==> a == b
  {
    if a < b then -1 else if a == b then 0 else 1
  }

  /** The keys stored, with their multiplicities. */
  function Keys(t: SearchTree): multiset<int>
  {
    match t
    case Leaf => multiset{}
    case Node(l, x, r) => Keys(l) + multiset{x} + Keys(r)
  }

  /** The number of nodes. */
  function Size(t: SearchTree): nat
  {
    match t
    case Leaf => 0
    case Node(l, _, r) => Size(l) + 1 + Size(r)
  }

  /** Each node holds one key. */
  lemma {:induction false} SizeCountsKeys(t: SearchTree)
    ensures Size(t) == |Keys(t)|
  {
    match t
    case Leaf =>
    case Node(l, _, r) =>
      SizeCountsKeys(l);
      SizeCountsKeys(r);
  }

  /** Every key is smaller than `b`. */
  predicate Below(t: SearchTree, b: int)
  {
    match t
    case Leaf => true
    case Node(l, x, r) => x < b && Below(l, b) && Below(r, b)
  }

  /** Every key is at least `b`. */
  predicate AtLeast(t: SearchTree, b: int)
  {
    match t
    case Leaf => true
    case Node(l, x, r) => b <= x && AtLeast(l, b) && AtLeast(r, b)
  }

  /** The ordering invariant: every key on the left of a node is smaller than
      the node's, every key on its right at least as large. */
  predicate Ordered(t: SearchTree)
  {
    match t
    case Leaf => true
    case Node(l, x, r) => Below(l, x) && AtLeast(r, x) && Ordered(l) && Ordered(r)
  }

  /** What the two bounds say about the stored keys. */
  lemma {:induction false} BoundsMeanKeys(t: SearchTree, b: int)
    ensures Below(t, b) <==> forall y :: y in Keys(t) ==> y < b
    ensures AtLeast(t, b) <==> forall y :: y in Keys(t) ==> b <= y
  {
    match t
    case Leaf =>
    case Node(l, x, r) =>
      BoundsMeanKeys(l, b);
      BoundsMeanKeys(r, b);
      assert x in Keys(t);
      assert forall y :: y in Keys(t) <==> y in Keys(l) || y == x || y in Keys(r);
  }

  /** A bound that holds keeps holding when it is loosened. */
  lemma {:induction false} Loosen(t: SearchTree, a: int, b: int)
    requires a <= b
    ensures Below(t, a) ==> Below(t, b)
    ensures AtLeast(t, b) ==> AtLeast(t, a)
  {
    match t
    case Leaf =>
    case Node(l, x, r) =>
      Loosen(l, a, b);
      Loosen(r, a, b);
  }

  /** A key outside a bound is not stored. */
  lemma {:induction false} OutsideBound(t: SearchTree, b: int, y: int)
    ensures Below(t, b) && b <= y ==> y !in Keys(t)
    ensures AtLeast(t, b) && y < b ==> y !in Keys(t)
  {
    match t
    case Leaf =>
    case Node(l, x, r) =>
      OutsideBound(l, b, y);
      OutsideBound(r, b, y);
  }

  /** Adding a leaf: left when the node's key is greater than `x`, otherwise
      right. */
  function Insert(t: SearchTree, x: int): SearchTree
  {
    match t
    case Leaf => Node(Leaf, x, Leaf)
    case Node(l, y, rt) =>
      if Compare(y, x) > 0 then Node(Insert(l, x), y, rt) else Node(l, y, Insert(rt, x))
  }

  /** Insertion adds exactly one occurrence of `x`. */
  lemma {:induction false} InsertKeys(t: SearchTree, x: int)
    ensures Keys(Insert(t, x)) == Keys(t) + multiset{x}
  {
    match t
    case Leaf =>
    case Node(l, y, r) =>
      if y > x {
        InsertKeys(l, x);
      } else {
        InsertKeys(r, x);
      }
  }

  /** Insertion adds one node. */
  lemma {:induction false} InsertSize(t: SearchTree, x: int)
    ensures Size(Insert(t, x)) == Size(t) + 1
  {
    match t
    case Leaf =>
    case Node(l, y, r) =>
      if y > x {
        InsertSize(l, x);
      } else {
        InsertSize(r, x);
      }
  }

  /** Insertion keeps a bound that `x` satisfies. */
  lemma {:induction false} InsertBounds(t: SearchTree, x: int, b: int)
    ensures Below(t, b) && x < b ==> Below(Insert(t, x), b)
    ensures AtLeast(t, b) && b <= x ==> AtLeast(Insert(t, x), b)
  {
    match t
    case Leaf =>
    case Node(l, y, r) =>
      if y > x {
        InsertBounds(l, x, b);
      } else {
        InsertBounds(r, x, b);
      }
  }

  /** Insertion keeps the tree ordered. */
  lemma {:induction false} InsertOrdered(t: SearchTree, x: int)
    requires Ordered(t)
    ensures Ordered(Insert(t, x))
  {
    match t
    case Leaf =>
    case Node(l, y, r) =>
      if y > x {
        InsertOrdered(l, x);
        InsertBounds(l, x, y);
      } else {
        InsertOrdered(r, x);
        InsertBounds(r, x, y);
      }
  }

  /** The walk of a lookup: stop at an equal key, go right past a smaller key and
      left past a greater one. */
  function Search(t: SearchTree, x: int): (found: bool)
    ensures found ==> x in Keys(t)
  {
    match t
    case Leaf => false
    case Node(l, y, r) =>
      var c := Compare(y, x);
      if c == 0 then true else if c < 0 then Search(r, x) else Search(l, x)
  }

  /** On an ordered tree the walk finds exactly the keys that are stored. */
  lemma {:induction false} SearchFindsKeys(t: SearchTree, x: int)
    requires Ordered(t)
    ensures Search(t, x) <==> x in Keys(t)
  {
    match t
    case Leaf =>
    case Node(l, y, r) =>
      if y < x {
        SearchFindsKeys(r, x);
        OutsideBound(l, y, x);
      } else if x < y {
        SearchFindsKeys(l, x);
        OutsideBound(r, y, x);
      }
  }

  /** The leftmost key of a non-empty tree. */
  function Leftmost(t: SearchTree): (x: int)
    requires t.Node?
    ensures x in Keys(t)
  {
    if t.left.Leaf? then t.data else Leftmost(t.left)
  }

  /** A non-empty tree without its leftmost node, whose right subtree takes its
      place. */
  function DropLeftmost(t: SearchTree): SearchTree
    requires t.Node?
  {
    if t.left.Leaf? then t.right else Node(DropLeftmost(t.left), t.data, t.right)
  }

  /** Dropping the leftmost node takes out exactly its key. */
  lemma {:induction false} DropLeftmostKeys(t: SearchTree)
    requires t.Node?
    ensures Keys(t) == Keys(DropLeftmost(t)) + multiset{Leftmost(t)}
  {
    if t.left.Node? {
      DropLeftmostKeys(t.left);
    }
  }

  /** Dropping the leftmost node takes out one node. */
  lemma {:induction false} DropLeftmostSize(t: SearchTree)
    requires t.Node?
    ensures Size(DropLeftmost(t)) == Size(t) - 1
  {
    if t.left.Node? {
      DropLeftmostSize(t.left);
    }
  }

  /** The leftmost key and the rest of the tree keep every bound of the tree. */
  lemma {:induction false} DropLeftmostBounds(t: SearchTree, b: int)
    requires t.Node?
    ensures Below(t, b) ==> Leftmost(t) < b && Below(DropLeftmost(t), b)
    ensures AtLeast(t, b) ==> b <= Leftmost(t) && AtLeast(DropLeftmost(t), b)
  {
    if t.left.Node? {
      DropLeftmostBounds(t.left, b);
    }
  }

  /** In an ordered tree the leftmost key is the least one, and what remains
      without it is still ordered. */
  lemma {:induction false} DropLeftmostOrdered(t: SearchTree)
    requires t.Node? && Ordered(t)
    ensures AtLeast(t, Leftmost(t))
    ensures Ordered(DropLeftmost(t))
  {
    if t.left.Node? {
      var m := Leftmost(t.left);
      DropLeftmostOrdered(t.left);
      DropLeftmostBounds(t.left, t.data);
      Loosen(t.right, m, t.data);
    }
  }

  /** Removing the root of a non-empty tree, by the three cases: without a right
      child the left subtree takes its place; a right child without a left child
      takes its place and adopts the left subtree; otherwise the least key of the
      right subtree moves up to the root. */
  function RemoveRoot(t: SearchTree): SearchTree
    requires t.Node?
  {
    match t.right
    case Leaf => t.left
    case Node(Leaf, z, rr) => Node(t.left, z, rr)
    case Node(Node(_, _, _), _, _) => Node(t.left, Leftmost(t.right), DropLeftmost(t.right))
  }

  /** Removing the root takes out exactly the root's key. */
  lemma RemoveRootKeys(t: SearchTree)
    requires t.Node?
    ensures Keys(RemoveRoot(t)) == Keys(t) - multiset{t.data}
  {
    var kl, d, r := Keys(t.left), multiset{t.data}, t.right;
    assert Keys(t) == kl + d + Keys(r);
    if r.Leaf? {
      assert Keys(RemoveRoot(t)) == kl;
    } else if r.left.Leaf? {
      assert Keys(r) == multiset{r.data} + Keys(r.right);
      assert Keys(RemoveRoot(t)) == kl + multiset{r.data} + Keys(r.right);
    } else {
      DropLeftmostKeys(r);
      var kd, m := Keys(DropLeftmost(r)), multiset{Leftmost(r)};
      assert Keys(r) == kd + m;
      assert Keys(RemoveRoot(t)) == kl + m + kd;
    }
  }

  /** Removing the root takes out one node. */
  lemma RemoveRootSize(t: SearchTree)
    requires t.Node?
    ensures Size(RemoveRoot(t)) == Size(t) - 1
  {
    if t.right.Node? && t.right.left.Node? {
      DropLeftmostSize(t.right);
    }
  }

  /** Removing the root keeps every bound of the tree and keeps an ordered tree
      ordered. */
  lemma RemoveRootBounds(t: SearchTree, b: int)
    requires t.Node?
    ensures Below(t, b) ==> Below(RemoveRoot(t), b)
    ensures AtLeast(t, b) ==> AtLeast(RemoveRoot(t), b)
    ensures Ordered(t) ==> Ordered(RemoveRoot(t))
  {
    var r := t.right;
    if r.Node? && r.left.Leaf? {
      assert RemoveRoot(t) == Node(t.left, r.data, r.right);
      assert Below(t, b) ==> Below(r, b);
      assert AtLeast(t, b) ==> AtLeast(r, b);
      if Ordered(t) {
        assert Ordered(r);
        Loosen(t.left, t.data, r.data);
      }
    } else if r.Node? {
      assert RemoveRoot(t) == Node(t.left, Leftmost(r), DropLeftmost(r));
      DropLeftmostBounds(r, b);
      if Ordered(t) {
        var m := Leftmost(r);
        DropLeftmostBounds(r, t.data);
        DropLeftmostOrdered(r);
        DropLeftmostBounds(r, m);
        Loosen(t.left, t.data, m);
      }
    }
  }

  /** The removal walk: the first node met with an equal key loses its root, the
      walk goes left past a greater key and right past a smaller one. */
  function RemoveData(t: SearchTree, x: int): SearchTree
  {
    match t
    case Leaf => Leaf
    case Node(l, y, r) =>
      var c := Compare(x, y);
      if c == 0 then RemoveRoot(t)
      else if c == -1 then Node(RemoveData(l, x), y, r)
      else Node(l, y, RemoveData(r, x))
  }

  /** Removal keeps every bound of the tree. */
  lemma {:induction false} RemoveDataBounds(t: SearchTree, x: int, b: int)
    ensures Below(t, b) ==> Below(RemoveData(t, x), b)
    ensures AtLeast(t, b) ==> AtLeast(RemoveData(t, x), b)
  {
    match t
    case Leaf =>
    case Node(l, y, r) =>
      if x == y {
        RemoveRootBounds(t, b);
      } else if x < y {
        RemoveDataBounds(l, x, b);
      } else {
        RemoveDataBounds(r, x, b);
      }
  }

  /** Removal takes out one node exactly when the walk finds the key. */
  lemma {:induction false} RemoveDataSize(t: SearchTree, x: int)
    ensures Size(RemoveData(t, x)) == if Search(t, x) then Size(t) - 1 else Size(t)
  {
    match t
    case Leaf =>
    case Node(l, y, r) =>
      if x == y {
        RemoveRootSize(t);
      } else if x < y {
        RemoveDataSize(l, x);
      } else {
        RemoveDataSize(r, x);
      }
  }

  /** On an ordered tree, removal takes out exactly one occurrence of `x` when
      there is one and nothing otherwise. */
  lemma {:induction false} RemoveDataKeys(t: SearchTree, x: int)
    requires Ordered(t)
    ensures Keys(RemoveData(t, x)) == Keys(t) - multiset{x}
  {
    match t
    case Leaf =>
    case Node(l, y, r) =>
      if x == y {
        RemoveRootKeys(t);
      } else if x < y {
        assert RemoveData(t, x) == Node(RemoveData(l, x), y, r);
        RemoveDataKeys(l, x);
        OutsideBound(r, y, x);
        SubtractOutside(Keys(l), y, Keys(r), x);
      } else {
        assert RemoveData(t, x) == Node(l, y, RemoveData(r, x));
        RemoveDataKeys(r, x);
        OutsideBound(l, y, x);
        SubtractOutside(Keys(l), y, Keys(r), x);
      }
  }

  /** Taking out one occurrence of `x` from the keys of a node whose key is not
      `x` takes it out of the one subtree that can hold it. */
  lemma SubtractOutside(kl: multiset<int>, y: int, kr: multiset<int>, x: int)
    requires x != y
    ensures x !in kr ==> (kl + multiset{y} + kr) - multiset{x} == (kl - multiset{x}) + multiset{y} + kr
    ensures x !in kl ==> (kl + multiset{y} + kr) - multiset{x} == kl + multiset{y} + (kr - multiset{x})
  {
  }

  /** Removal keeps the tree ordered. */
  lemma {:induction false} RemoveDataOrdered(t: SearchTree, x: int)
    requires Ordered(t)
    ensures Ordered(RemoveData(t, x))
  {
    match t
    case Leaf =>
    case Node(l, y, r) =>
      if x == y {
        RemoveRootBounds(t, y);
      } else if x < y {
        RemoveDataOrdered(l, x);
        RemoveDataBounds(l, x, y);
      } else {
        RemoveDataOrdered(r, x);
        RemoveDataBounds(r, x, y);
      }
  }

  /** The tree a sequence of additions builds, in order. */
  function InsertAll(t: SearchTree, xs: seq<int>): SearchTree
    decreases |xs|
  {
    if xs == [] then t else InsertAll(Insert(t, xs[0]), xs[1..])
  }

  /** Adding 100 then 50 puts 50 on the left of the root; adding 150 puts it on
      the right; 75 goes right of 50, 25 left of 50, 125 left of 150 and 175
      right of 150. */
  lemma AddScenarios()
    ensures InsertAll(Leaf, [100, 50]) == Node(Node(Leaf, 50, Leaf), 100, Leaf)
    ensures InsertAll(Leaf, [100, 150]) == Node(Leaf, 100, Node(Leaf, 150, Leaf))
    ensures InsertAll(Leaf, [100, 50, 75]).left.right.data == 75
    ensures InsertAll(Leaf, [100, 50, 25]).left.left.data == 25
    ensures InsertAll(Leaf, [100, 150, 125]).right.left.data == 125
    ensures InsertAll(Leaf, [100, 150, 175]).right.right.data == 175
  {
    var l := Node(Leaf, 50, Leaf);
    var r := Node(Leaf, 150, Leaf);
    assert InsertAll(Leaf, [100, 50]) == InsertAll(Node(Leaf, 100, Leaf), [50]);
    assert InsertAll(Leaf, [100, 150]) == InsertAll(Node(Leaf, 100, Leaf), [150]);
    assert InsertAll(Leaf, [100, 50, 75]) == InsertAll(Node(l, 100, Leaf), [75]);
    assert InsertAll(Leaf, [100, 50, 25]) == InsertAll(Node(l, 100, Leaf), [25]);
    assert InsertAll(Leaf, [100, 150, 125]) == InsertAll(Node(Leaf, 100, r), [125]);
    assert InsertAll(Leaf, [100, 150, 175]) == InsertAll(Node(Leaf, 100, r), [175]);
  }

  /** Removing the root 100: with only a left child 50, 50 becomes the root; with
      children 50 and 150, 150 does; when 150 has the left child 125, the least
      key of the right subtree, 125, does. */
  lemma RemoveRootScenarios()
    ensures RemoveData(InsertAll(Leaf, [100, 50]), 100).data == 50
    ensures RemoveData(InsertAll(Leaf, [100, 50, 150]), 100).data == 150
    ensures RemoveData(InsertAll(Leaf, [100, 50, 150, 125]), 100).data == 125
  {
    var l := Node(Leaf, 50, Leaf);
    var r := Node(Leaf, 150, Leaf);
    assert InsertAll(Leaf, [100, 50]) == InsertAll(Node(Leaf, 100, Leaf), [50]);
    assert InsertAll(Leaf, [100, 50, 150]) == InsertAll(Node(l, 100, Leaf), [150]);
    assert InsertAll(Leaf, [100, 50, 150, 125]) == InsertAll(Node(l, 100, r), [125]);
  }
}
