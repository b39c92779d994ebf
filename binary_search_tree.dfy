/** The unbalanced binary search tree over heap nodes. Its ghost `Model` is the
    shape of the linked nodes; `Abs` reads that shape as a `SearchTree` value,
    and every operation is proved against the value-level operation of
    `SearchTreeModel`. Keys are integers compared as `Int32.CompareTo` does. */
module BinarySearchTree {
  import opened SearchTreeModel

  /** A node of the tree: its key and the links to its two children. */
  class TreeNode {
    const Data: int
    var Left: TreeNode?
    var Right: TreeNode?

    constructor (data: int)
      ensures Data == data && Left == null && Right == null
    {
      Data := data;
      Left := null;
      Right := null;
    }
  }

  /** The shape of a linked tree: which node sits where. */
  datatype Shape = Empty | Branch(node: TreeNode, left: Shape, right: Shape)

  /** The reference that points at a shape: its top node, or null. */
  ghost function Root(s: Shape): (r: TreeNode?)
    ensures r == null <==> s.Empty?
  {
    if s.Empty? then null else s.node
  }

  ghost function NodesOf(s: Shape): set<TreeNode>
  {
    match s
    case Empty => {}
    case Branch(n, l, r) => {n} + NodesOf(l) + NodesOf(r)
  }

  /** The nodes of a shape the caller holds exist already. */
  lemma {:induction false} NodesAllocated(s: Shape)
    ensures forall n :: n in NodesOf(s) ==> allocated(n)
  {
    match s
    case Empty =>
    case Branch(_, l, r) =>
      NodesAllocated(l);
      NodesAllocated(r);
  }

  /** Every node of the shape occurs once. */
  ghost predicate Distinct(s: Shape)
  {
    match s
    case Empty => true
    case Branch(n, l, r) =>
      && n !in NodesOf(l) && n !in NodesOf(r) && NodesOf(l) !! NodesOf(r)
      && Distinct(l) && Distinct(r)
  }

  /** The heap links agree with the shape. */
  ghost predicate WellLinked(s: Shape)
    reads NodesOf(s)
  {
    match s
    case Empty => true
    case Branch(n, l, r) => n.Left == Root(l) && n.Right == Root(r) && WellLinked(l) && WellLinked(r)
  }

  /** The search tree the shape holds. */
  ghost function Abs(s: Shape): SearchTree
  {
    match s
    case Empty => Leaf
    case Branch(n, l, r) => Node(Abs(l), n.Data, Abs(r))
  }

  /** Links that nobody wrote still agree with the shape. */
  twostate lemma {:induction false} StillLinked(s: Shape)
    requires (forall n :: n in NodesOf(s) ==> old(allocated(n))) && old(WellLinked(s))
    requires unchanged(NodesOf(s))
    ensures WellLinked(s)
  {
    match s
    case Empty =>
    case Branch(n, l, r) =>
      assert old(WellLinked(l)) && old(WellLinked(r));
      assert NodesOf(l) <= NodesOf(s) && NodesOf(r) <= NodesOf(s);
      StillLinked(l);
      StillLinked(r);
  }

  /** No node of a linked tree is its own right child, so a right link that
      points back at its own node leaves no shape the links can agree with. */
  lemma {:induction false} NoRightSelfLoop(s: Shape, n: TreeNode)
    requires WellLinked(s) && Distinct(s) && n in NodesOf(s)
    ensures n.Right != n
  {
    match s
    case Empty =>
    case Branch(m, l, r) =>
      if n == m {
        assert r.Branch? ==> Root(r) in NodesOf(r);
      } else if n in NodesOf(l) {
        NoRightSelfLoop(l, n);
      } else {
        NoRightSelfLoop(r, n);
      }
  }

  /** The node holding the least key of a non-empty shape: the end of its left
      spine. */
  ghost function MinNode(s: Shape): (m: TreeNode)
    requires s.Branch?
    ensures m in NodesOf(s)
  {
    if s.left.Empty? then s.node else MinNode(s.left)
  }

  /** The parent of `MinNode` when the top has a left child. */
  ghost function MinParent(s: Shape): (p: TreeNode)
    requires s.Branch? && s.left.Branch?
    ensures p in NodesOf(s)
  {
    if s.left.left.Empty? then s.node else MinParent(s.left)
  }

  /** The shape without `MinNode`, whose right subtree takes its place. */
  ghost function DropMinShape(s: Shape): Shape
    requires s.Branch?
  {
    if s.left.Empty? then s.right else Branch(s.node, DropMinShape(s.left), s.right)
  }

  /** What dropping the minimum does to the nodes and to the search tree. */
  lemma {:induction false} DropMinShapeFacts(s: Shape)
    requires s.Branch? && Distinct(s)
    ensures NodesOf(DropMinShape(s)) == NodesOf(s) - {MinNode(s)}
    ensures Distinct(DropMinShape(s))
    ensures MinNode(s).Data == Leftmost(Abs(s))
    ensures Abs(DropMinShape(s)) == DropLeftmost(Abs(s))
    ensures s.left.Branch? ==> Root(DropMinShape(s)) == s.node
  {
    if s.left.Branch? {
      DropMinShapeFacts(s.left);
    }
  }

  /** Once `MinParent`'s left link is bridged over the minimum to the minimum's
      right subtree, and nothing else has changed, the links agree with
      `DropMinShape`. */
  twostate lemma {:induction false} DropMinLinked(s: Shape)
    requires s.Branch? && s.left.Branch? && Distinct(s)
    requires (forall n :: n in NodesOf(s) ==> old(allocated(n))) && old(WellLinked(s))
    requires unchanged(NodesOf(s) - {MinParent(s)})
    requires MinParent(s).Left == old(MinNode(s).Right) && MinParent(s).Right == old(MinParent(s).Right)
    ensures WellLinked(DropMinShape(s))
  {
    var l := s.left;
    if l.left.Empty? {
      assert NodesOf(l.right) <= NodesOf(s) - {s.node};
      StillLinked(l.right);
      StillLinked(s.right);
    } else {
      DropMinShapeFacts(l);
      DropMinLinked(l);
      StillLinked(s.right);
    }
  }

  class Tree {
    var root: TreeNode?
    var Count: nat

    /** The shape of the linked nodes, and the count carried over the clearings
        (which drop the nodes but keep `Count`). */
    ghost var Model: Shape
    ghost var Cleared: nat
    /** The nodes of `Model`. */
    ghost var Repr: set<TreeNode>

    /** The object invariant: `root` tops a linked, repetition-free, ordered
        shape, and `Count` is its number of keys plus what was cleared. */
    ghost predicate Valid()
      reads this, Repr
    {
      && Repr == NodesOf(Model)
      && root == Root(Model)
      && WellLinked(Model) && Distinct(Model)
      && Ordered(Abs(Model))
      && Count == Size(Abs(Model)) + Cleared
    }

    /** The keys in the tree. */
    ghost function Contents(): multiset<int>
      reads this
    {
      Keys(Abs(Model))
    }

    constructor ()
      ensures Valid() && Abs(Model) == Leaf && Count == 0
    {
      root := null;
      Count := 0;
      Model := Empty;
      Cleared := 0;
      Repr := {};
    }

    /** Adds a new leaf holding `item` where the search for it ends, and counts
        it. */
    method Add(item: int)
      requires Valid()
      modifies this, Repr
      ensures Valid()
      ensures Abs(Model) == Insert(old(Abs(Model)), item)
      ensures Count == old(Count) + 1
    {
      ghost var t := Abs(Model);
      InsertSize(t, item);
      InsertOrdered(t, item);
      var node := new TreeNode(item);
      var r;
      ghost var s';
      r, s' := AddNewNode(root, node, Model);
      root, Model, Repr, Count := r, s', NodesOf(s'), Count + 1;
    }

    /** Links `node` in as a new leaf of the subtree that `parent` tops, going
        left past a greater key and right past any other, and returns the new
        value of the reference to that subtree: `node` itself when the subtree
        is empty, `parent` otherwise. The reference parameter of the source
        becomes this result, which the caller stores back. */
    static method AddNewNode(parent: TreeNode?, node: TreeNode, ghost s: Shape)
      returns (r: TreeNode, ghost s': Shape)
      requires parent == Root(s) && WellLinked(s) && Distinct(s)
      requires node !in NodesOf(s) && node.Left == null && node.Right == null
      modifies NodesOf(s)
      ensures WellLinked(s') && Distinct(s') && r == Root(s')
      ensures NodesOf(s') == NodesOf(s) + {node}
      ensures Abs(s') == Insert(Abs(s), node.Data)
      decreases s
    {
      if parent == null {
        return node, Branch(node, Empty, Empty);
      }
      NodesAllocated(s);
      if Compare(parent.Data, node.Data) > 0 {
        var left;
        ghost var sl;
        left, sl := AddNewNode(parent.Left, node, s.left);
        parent.Left := left;
        s' := Branch(parent, sl, s.right);
      } else {
        var right;
        ghost var sr;
        right, sr := AddNewNode(parent.Right, node, s.right);
        parent.Right := right;
        s' := Branch(parent, s.left, sr);
      }
      r := parent;
    }

    /** Drops the nodes by nulling the root; `Count` keeps its value. */
    method Clear()
      requires Valid()
      modifies this
      ensures Valid() && Abs(Model) == Leaf && root == null
      ensures Count == old(Count)
    {
      root := null;
      Cleared := Count;
      Model := Empty;
      Repr := {};
    }

    /** The iterative search: the node holding `item` and its parent (null for
        the root), or null for both when the walk falls off the tree. */
    method FindItemAndParent(item: int) returns (r: TreeNode?, parent: TreeNode?)
      requires Valid()
      ensures r != null <==> Search(Abs(Model), item)
      ensures r != null ==> r in NodesOf(Model) && r.Data == item
      ensures r != null && parent == null ==> r == root
      ensures parent != null ==> r != null && (parent.Left == r || parent.Right == r)
    {
      parent := null;
      var current := root;
      ghost var cur := Model;
      while current != null
        invariant current == Root(cur) && WellLinked(cur) && NodesOf(cur) <= NodesOf(Model)
        invariant Search(Abs(cur), item) == Search(Abs(Model), item)
        invariant parent == null ==> current == root
        invariant parent != null ==> parent.Left == current || parent.Right == current
        decreases cur
      {
        var comparison := Compare(current.Data, item);
        if comparison == 0 {
          return current, parent;
        } else if comparison < 0 {
          parent := current;
          current := current.Right;
          cur := cur.right;
        } else {
          parent := current;
          current := current.Left;
          cur := cur.left;
        }
      }
      parent := null;
      return null, parent;
    }

    /** The search without the parent. */
    method FindItem(item: int) returns (r: TreeNode?)
      requires Valid()
      ensures r != null <==> item in Contents()
      ensures r != null ==> r in NodesOf(Model) && r.Data == item
    {
      var parentDummy;
      r, parentDummy := FindItemAndParent(item);
      SearchFindsKeys(Abs(Model), item);
    }

    /** Whether some node holds `item`. */
    method Contains(item: int) returns (b: bool)
      requires Valid()
      ensures b <==> item in Contents()
    {
      var r := FindItem(item);
      b := r != null;
    }

    /** Removes one node holding `item`, if there is one, and tells whether it
        did; only a removal changes `Count`. */
    method Remove(item: int) returns (b: bool)
      requires Valid()
      modifies this, Repr
      ensures Valid()
      ensures b == Search(old(Abs(Model)), item)
      ensures Abs(Model) == RemoveData(old(Abs(Model)), item)
      ensures Count == if b then old(Count) - 1 else old(Count)
    {
      ghost var t := Abs(Model);
      RemoveDataSize(t, item);
      RemoveDataOrdered(t, item);
      ghost var s';
      b, s' := RemoveDataAt(root, null, item, Model, false);
      Model, Repr := s', NodesOf(s');
      if b {
        Count := Count - 1;
      }
    }

    /** Whether the reference to a subtree is `target`: `root` when there is no
        parent, otherwise the parent's child on the side `left` names. */
    ghost predicate Points(parent: TreeNode?, target: TreeNode?, left: bool)
      reads this, parent
    {
      if parent == null then root == target
      else if left then parent.Left == target
      else parent.Right == target
    }

    /** What a removal below `parent` relies on: `node` tops the linked shape
        `s`, `parent` (outside `s`) or `root` points at it, and the side it
        hangs on agrees with the key comparison the removal cases make. */
    ghost predicate Hangs(node: TreeNode?, parent: TreeNode?, s: Shape, left: bool)
      reads this, parent, NodesOf(s)
    {
      && node == Root(s) && WellLinked(s) && Distinct(s)
      && parent !in NodesOf(s) && Points(parent, node, left)
      && (parent != null && node != null ==> (left <==> node.Data < parent.Data))
    }

    /** The removal walk: removes the first node met that holds `data`, and tells
        whether there was one. */
    method RemoveDataAt(node: TreeNode?, parent: TreeNode?, data: int, ghost s: Shape, ghost left: bool)
      returns (found: bool, ghost s': Shape)
      requires Hangs(node, parent, s, left) && Ordered(Abs(s))
      modifies this`root, NodesOf(s), parent
      ensures WellLinked(s') && Distinct(s') && NodesOf(s') <= NodesOf(s)
      ensures Points(parent, Root(s'), left)
      ensures parent != null ==> root == old(root)
      ensures parent != null && left ==> parent.Right == old(parent.Right)
      ensures parent != null && !left ==> parent.Left == old(parent.Left)
      ensures Abs(s') == RemoveData(Abs(s), data)
      ensures found == Search(Abs(s), data)
      decreases s
    {
      if node == null {
        return false, s;
      }
      NodesAllocated(s);
      var comparison := Compare(data, node.Data);
      if comparison == 0 {
        s' := RemoveNode(node, parent, s, left);
        return true, s';
      } else if comparison == -1 {
        ghost var sl;
        assert Below(Abs(s.left), node.Data);
        assert s.left.Branch? ==> Abs(s.left).data == node.Left.Data;
        found, sl := RemoveDataAt(node.Left, node, data, s.left, true);
        s' := Branch(node, sl, s.right);
      } else {
        ghost var sr;
        assert AtLeast(Abs(s.right), node.Data);
        assert s.right.Branch? ==> Abs(s.right).data == node.Right.Data;
        found, sr := RemoveDataAt(node.Right, node, data, s.right, false);
        s' := Branch(node, s.left, sr);
      }
    }

    /** Removes `node`, the top of `s`, by the three cases. */
    method RemoveNode(node: TreeNode, parent: TreeNode?, ghost s: Shape, ghost left: bool)
      returns (ghost s': Shape)
      requires Hangs(node, parent, s, left)
      modifies this`root, NodesOf(s), parent
      ensures WellLinked(s') && Distinct(s') && NodesOf(s') <= NodesOf(s)
      ensures Points(parent, Root(s'), left)
      ensures parent != null ==> root == old(root)
      ensures parent != null && left ==> parent.Right == old(parent.Right)
      ensures parent != null && !left ==> parent.Left == old(parent.Left)
      ensures Abs(s') == RemoveRoot(Abs(s))
    {
      if node.Right == null {
        s' := RemoveNodeNoRightChild(node, parent, s, left);
      } else if node.Right.Left == null {
        s' := RemoveNodeNoRightLeftChild(node, parent, s, left);
      } else {
        s' := RemoveNodeRightLeftChild(node, parent, s, left);
      }
    }

    /** Makes the reference that points at `node` point at `child` instead: `root`
        without a parent, otherwise the parent's left child when `node`'s key is
        below the parent's and its right child when not. */
    method ReplaceChild(node: TreeNode, parent: TreeNode?, child: TreeNode?, ghost left: bool)
      requires parent != null ==> (left <==> node.Data < parent.Data)
      modifies this`root, parent
      ensures Points(parent, child, left)
      ensures parent != null ==> root == old(root)
      ensures parent != null && left ==> parent.Right == old(parent.Right)
      ensures parent != null && !left ==> parent.Left == old(parent.Left)
    {
      if parent == null {
        root := child;
      } else {
        var comparison := Compare(node.Data, parent.Data);
        if comparison < 0 {
          parent.Left := child;
        } else {
          parent.Right := child;
        }
      }
    }

    /** Without a right child, the left subtree takes the node's place. */
    method RemoveNodeNoRightChild(node: TreeNode, parent: TreeNode?, ghost s: Shape, ghost left: bool)
      returns (ghost s': Shape)
      requires Hangs(node, parent, s, left) && node.Right == null
      modifies this`root, parent
      ensures WellLinked(s') && Distinct(s') && NodesOf(s') <= NodesOf(s)
      ensures Points(parent, Root(s'), left)
      ensures parent != null ==> root == old(root)
      ensures parent != null && left ==> parent.Right == old(parent.Right)
      ensures parent != null && !left ==> parent.Left == old(parent.Left)
      ensures Abs(s') == RemoveRoot(Abs(s))
    {
      NodesAllocated(s);
      ReplaceChild(node, parent, node.Left, left);
      s' := s.left;
    }

    /** When the right child has no left child, the right child takes the node's
        place and adopts the node's left subtree. */
    method RemoveNodeNoRightLeftChild(node: TreeNode, parent: TreeNode?, ghost s: Shape, ghost left: bool)
      returns (ghost s': Shape)
      requires Hangs(node, parent, s, left) && node.Right != null && node.Right.Left == null
      modifies this`root, parent, node.Right
      ensures WellLinked(s') && Distinct(s') && NodesOf(s') <= NodesOf(s)
      ensures Points(parent, Root(s'), left)
      ensures parent != null ==> root == old(root)
      ensures parent != null && left ==> parent.Right == old(parent.Right)
      ensures parent != null && !left ==> parent.Left == old(parent.Left)
      ensures Abs(s') == RemoveRoot(Abs(s))
    {
      NodesAllocated(s);
      assert WellLinked(s) && Distinct(s);
      ghost var sr := s.right;
      assert WellLinked(sr) && Distinct(sr) && sr.left.Empty?;
      var right := node.Right;
      ReplaceChild(node, parent, right, left);
      right.Left := node.Left;
      s' := Branch(right, s.left, sr.right);
      assert Abs(sr) == Node(Leaf, right.Data, Abs(sr.right));
    }

    /** When the right child has a left child, the least node of the right
        subtree is detached and takes the node's place with both of the node's
        subtrees. Without a parent this is the source's code; below a parent the
        source links the right child instead (see
        `RemoveNodeRightLeftChildAsWritten`), and this does what the root case
        does. */
    method RemoveNodeRightLeftChild(node: TreeNode, parent: TreeNode?, ghost s: Shape, ghost left: bool)
      returns (ghost s': Shape)
      requires Hangs(node, parent, s, left) && node.Right != null && node.Right.Left != null
      modifies this`root, parent, NodesOf(s.right)
      ensures WellLinked(s') && Distinct(s') && NodesOf(s') <= NodesOf(s)
      ensures Points(parent, Root(s'), left)
      ensures parent != null ==> root == old(root)
      ensures parent != null && left ==> parent.Right == old(parent.Right)
      ensures parent != null && !left ==> parent.Left == old(parent.Left)
      ensures Abs(s') == RemoveRoot(Abs(s))
    {
      NodesAllocated(s);
      assert WellLinked(s) && Distinct(s);
      ghost var sr := s.right;
      assert WellLinked(sr) && Distinct(sr) && sr.left.Branch?;
      ghost var rest := DropMinShape(sr);
      DropMinShapeFacts(sr);
      var minimumLeft := DetachMinimum(node.Right, sr);
      assert WellLinked(s.left) && WellLinked(rest);
      ReplaceChild(node, parent, minimumLeft, left);
      Adopt(minimumLeft, node.Left, node.Right, s.left, rest);
      s' := Branch(minimumLeft, s.left, rest);
    }

    /** The source's own code for the third removal case. Below a parent it links
        the right child `r` in the node's place, overwrites `r`'s left subtree
        with the node's left subtree and makes `r` its own right child; the
        detached minimum is lost with `r`'s former subtrees. */
    method RemoveNodeRightLeftChildAsWritten(node: TreeNode, parent: TreeNode?, ghost s: Shape, ghost left: bool)
      returns (ghost s': Shape)
      requires Hangs(node, parent, s, left) && node.Right != null && node.Right.Left != null
      modifies this`root, parent, NodesOf(s.right)
      ensures parent == null ==> WellLinked(s') && Distinct(s') && root == Root(s')
      ensures parent == null ==> Abs(s') == RemoveRoot(Abs(s))
      ensures parent != null ==> Points(parent, old(node.Right), left)
      ensures parent != null ==> old(node.Right).Right == old(node.Right)
      ensures parent != null ==> old(node.Right).Left == node.Left
    {
      NodesAllocated(s);
      assert WellLinked(s) && Distinct(s);
      ghost var sr := s.right;
      assert WellLinked(sr) && Distinct(sr) && sr.left.Branch?;
      ghost var rest := DropMinShape(sr);
      DropMinShapeFacts(sr);
      var minimumLeft := DetachMinimum(node.Right, sr);
      assert WellLinked(s.left) && WellLinked(rest);
      if parent == null {
        root := minimumLeft;
        Adopt(root, node.Left, node.Right, s.left, rest);
        s' := Branch(minimumLeft, s.left, rest);
      } else {
        var right := node.Right;
        ReplaceChild(node, parent, right, left);
        right.Left := node.Left;
        right.Right := node.Right;
        s' := Empty;
      }
    }

    /** Hangs the linked shapes `sl` and `sr` below `m`. */
    static method Adopt(m: TreeNode, l: TreeNode?, r: TreeNode?, ghost sl: Shape, ghost sr: Shape)
      requires l == Root(sl) && r == Root(sr) && WellLinked(sl) && WellLinked(sr)
      requires m !in NodesOf(sl) && m !in NodesOf(sr)
      modifies m
      ensures m.Left == l && m.Right == r
      ensures WellLinked(Branch(m, sl, sr))
    {
      m.Left := l;
      m.Right := r;
    }

    /** The loop of the third removal case: walks the left spine of `top`'s
        shape down to the least node, bridges its parent's left link over it to
        its right subtree and returns it. */
    static method DetachMinimum(top: TreeNode, ghost s: Shape) returns (minimumLeft: TreeNode)
      requires s.Branch? && s.node == top && s.left.Branch? && WellLinked(s) && Distinct(s)
      modifies MinParent(s)
      ensures minimumLeft == MinNode(s)
      ensures WellLinked(DropMinShape(s))
    {
      NodesAllocated(s);
      minimumLeft := top.Left;
      var currentLeft := top;
      ghost var cur := s;
      while minimumLeft.Left != null
        invariant cur.Branch? && cur.left.Branch? && WellLinked(cur)
        invariant currentLeft == cur.node && minimumLeft == cur.left.node
        invariant MinParent(cur) == MinParent(s) && MinNode(cur) == MinNode(s)
        decreases cur
      {
        cur := cur.left;
        currentLeft := minimumLeft;
        minimumLeft := minimumLeft.Left;
      }
      currentLeft.Left := minimumLeft.Right;
      DropMinLinked(s);
    }
  }
}
