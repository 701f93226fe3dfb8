/**
 * icb::AVLSet<T>: a height-balanced binary search tree of distinct values.
 * Nodes are modelled as a tree value; each node keeps the cached height the
 * source stores in Node::height. Values are integers (the source accepts any
 * type with <, > and ==, which act as a strict total order).
 */
module AvlSet {

  datatype Tree = Nil | Node(data: int, left: Tree, right: Tree, height: nat)

  /** The three visiting orders of ForEachNode. */
  datatype TraversalOrder = InOrderTraversal | PreOrderTraversal | PostOrderTraversal

  function Max(a: int, b: int): int { if a < b then b else a }

  /** height(): the cached height, 0 for a missing child. */
  function Height(t: Tree): nat
  {
    if t.Nil? then 0 else t.height
  }

  /** getBalance(): height of the left child minus height of the right child. */
  function Balance(t: Tree): int
  {
    if t.Nil? then 0 else Height(t.left) - Height(t.right)
  }

  /** The true height of a tree, counted in nodes along the longest path. */
  function Depth(t: Tree): nat
  {
    if t.Nil? then 0 else 1 + Max(Depth(t.left), Depth(t.right))
  }

  function Values(t: Tree): set<int>
  {
    if t.Nil? then {} else Values(t.left) + {t.data} + Values(t.right)
  }

  /** Every cached height is 1 + the larger cached height of the children. */
  ghost predicate HeightsOk(t: Tree)
  {
    t.Nil? || (HeightsOk(t.left) && HeightsOk(t.right) && t.height == 1 + Max(Height(t.left), Height(t.right)))
  }

  /** The AVL balance condition at every node. */
  ghost predicate Balanced(t: Tree)
  {
    t.Nil? || (Balanced(t.left) && Balanced(t.right) && -1 <= Balance(t) <= 1)
  }

  /** The strict search-tree ordering at every node. */
  ghost predicate Ordered(t: Tree)
  {
    t.Nil? ||
    (Ordered(t.left) && Ordered(t.right) &&
     (forall v :: v in Values(t.left) ==> v < t.data) &&
     (forall v :: v in Values(t.right) ==> t.data < v))
  }

  /** The invariant of every tree that Insert produces. */
  ghost predicate Avl(t: Tree)
  {
    Ordered(t) && HeightsOk(t) && Balanced(t)
  }

  function InOrder(t: Tree): seq<int>
  {
    if t.Nil? then [] else InOrder(t.left) + [t.data] + InOrder(t.right)
  }

  function PreOrder(t: Tree): seq<int>
  {
    if t.Nil? then [] else [t.data] + PreOrder(t.left) + PreOrder(t.right)
  }

  function PostOrder(t: Tree): seq<int>
  {
    if t.Nil? then [] else PostOrder(t.left) + PostOrder(t.right) + [t.data]
  }

  ghost predicate StrictlyAscending(s: seq<int>)
  {
    forall i, j :: 0 <= i < j < |s| ==> s[i] < s[j]
  }

  /** Cached heights that satisfy HeightsOk are the true heights. */
  lemma {:induction false} CachedHeightIsDepth(t: Tree)
    requires HeightsOk(t)
    ensures Height(t) == Depth(t)
  {
    if t.Node? {
      CachedHeightIsDepth(t.left);
      CachedHeightIsDepth(t.right);
    }
  }

  /** rotateRight: the left child becomes the root; the old root takes the
      left child's right subtree. Only the two moved nodes get new heights. */
  function RotateRight(t: Tree): (r: Tree)
    requires t.Node? && t.left.Node?
    ensures InOrder(r) == InOrder(t)
    ensures Values(r) == Values(t)
  {
    var newRoot := t.left;
    var node := Node(t.data, newRoot.right, t.right, Max(Height(newRoot.right), Height(t.right)) + 1);
    Node(newRoot.data, newRoot.left, node, Max(Height(newRoot.left), Height(node)) + 1)
  }

  /** rotateLeft: the mirror image of rotateRight. */
  function RotateLeft(t: Tree): (r: Tree)
    requires t.Node? && t.right.Node?
    ensures InOrder(r) == InOrder(t)
    ensures Values(r) == Values(t)
  {
    var newRoot := t.right;
    var node := Node(t.data, t.left, newRoot.left, Max(Height(t.left), Height(newRoot.left)) + 1);
    Node(newRoot.data, node, newRoot.right, Max(Height(node), Height(newRoot.right)) + 1)
  }

  lemma RotateRightOrdered(t: Tree)
    requires t.Node? && t.left.Node? && Ordered(t)
    ensures Ordered(RotateRight(t))
  {
    var a := t.left;
    assert a.data in Values(a);
    assert forall v :: v in Values(a.right) ==> v in Values(a);
  }

  lemma RotateLeftOrdered(t: Tree)
    requires t.Node? && t.right.Node? && Ordered(t)
    ensures Ordered(RotateLeft(t))
  {
    var b := t.right;
    assert b.data in Values(b);
    assert forall v :: v in Values(b.left) ==> v in Values(b);
  }

  /** The children of a node are valid AVL trees and the node is ordered. */
  ghost predicate ChildrenAvl(t: Tree)
  {
    t.Node? && Ordered(t) &&
    HeightsOk(t.left) && HeightsOk(t.right) && Balanced(t.left) && Balanced(t.right)
  }

  /** Left-left case: one right rotation restores balance and yields the
      height the subtree had before the insertion. */
  lemma RotateRightFixesLeftLeft(t: Tree)
    requires ChildrenAvl(t) && t.left.Node?
    requires Height(t.left) == Height(t.right) + 2 && Balance(t.left) == 1
    ensures Avl(RotateRight(t)) && Height(RotateRight(t)) == Height(t.left)
  {
    RotateRightOrdered(t);
    var a := t.left;
    var node := Node(t.data, a.right, t.right, Max(Height(a.right), Height(t.right)) + 1);
    assert HeightsOk(a.left) && HeightsOk(a.right) && Balanced(a.left) && Balanced(a.right);
    assert Height(a.right) == Height(t.right);
    assert HeightsOk(node) && Balanced(node) && Height(node) == Height(a.left);
    assert RotateRight(t) == Node(a.data, a.left, node, Max(Height(a.left), Height(node)) + 1);
  }

  /** Right-right case, the mirror of the left-left case. */
  lemma RotateLeftFixesRightRight(t: Tree)
    requires ChildrenAvl(t) && t.right.Node?
    requires Height(t.right) == Height(t.left) + 2 && Balance(t.right) == -1
    ensures Avl(RotateLeft(t)) && Height(RotateLeft(t)) == Height(t.right)
  {
    RotateLeftOrdered(t);
    var b := t.right;
    var node := Node(t.data, t.left, b.left, Max(Height(t.left), Height(b.left)) + 1);
    assert HeightsOk(b.left) && HeightsOk(b.right) && Balanced(b.left) && Balanced(b.right);
    assert Height(b.left) == Height(t.left);
    assert HeightsOk(node) && Balanced(node) && Height(node) == Height(b.right);
    assert RotateLeft(t) == Node(b.data, node, b.right, Max(Height(node), Height(b.right)) + 1);
  }

  /** Left-right case: rotating the left child left and then the node right
      restores balance and the pre-insertion height. */
  lemma DoubleRotationFixesLeftRight(t: Tree)
    requires ChildrenAvl(t) && t.left.Node?
    requires Height(t.left) == Height(t.right) + 2 && Balance(t.left) == -1
    ensures t.left.right.Node?
    ensures var r := RotateRight(t.(left := RotateLeft(t.left)));
            Avl(r) && Height(r) == Height(t.left)
  {
    var l := t.left;
    assert HeightsOk(l.left) && HeightsOk(l.right) && Balanced(l.left) && Balanced(l.right);
    assert Height(l.right) == Height(l.left) + 1;
    var c := l.right;
    assert HeightsOk(c.left) && HeightsOk(c.right) && Balanced(c.left) && Balanced(c.right);
    RotateLeftOrdered(l);
    var t' := t.(left := RotateLeft(l));
    assert Ordered(t') by {
      assert Values(t'.left) == Values(l);
    }
    RotateRightOrdered(t');
    var a := Node(l.data, l.left, c.left, Max(Height(l.left), Height(c.left)) + 1);
    var d := Node(t.data, c.right, t.right, Max(Height(c.right), Height(t.right)) + 1);
    assert HeightsOk(a) && Balanced(a) && Height(a) == Height(l.left) + 1;
    assert HeightsOk(d) && Balanced(d) && Height(d) == Height(l.left) + 1;
    assert RotateLeft(l).left == a && RotateLeft(l).right == c.right;
    assert RotateRight(t') == Node(c.data, a, d, Max(Height(a), Height(d)) + 1);
  }

  /** Right-left case, the mirror of the left-right case. */
  lemma DoubleRotationFixesRightLeft(t: Tree)
    requires ChildrenAvl(t) && t.right.Node?
    requires Height(t.right) == Height(t.left) + 2 && Balance(t.right) == 1
    ensures t.right.left.Node?
    ensures var r := RotateLeft(t.(right := RotateRight(t.right)));
            Avl(r) && Height(r) == Height(t.right)
  {
    var rt := t.right;
    assert HeightsOk(rt.left) && HeightsOk(rt.right) && Balanced(rt.left) && Balanced(rt.right);
    assert Height(rt.left) == Height(rt.right) + 1;
    var c := rt.left;
    assert HeightsOk(c.left) && HeightsOk(c.right) && Balanced(c.left) && Balanced(c.right);
    RotateRightOrdered(rt);
    var t' := t.(right := RotateRight(rt));
    assert Ordered(t') by {
      assert Values(t'.right) == Values(rt);
    }
    RotateLeftOrdered(t');
    var d := Node(t.data, t.left, c.left, Max(Height(t.left), Height(c.left)) + 1);
    var b := Node(rt.data, c.right, rt.right, Max(Height(c.right), Height(rt.right)) + 1);
    assert HeightsOk(d) && Balanced(d) && Height(d) == Height(rt.right) + 1;
    assert HeightsOk(b) && Balanced(b) && Height(b) == Height(rt.right) + 1;
    assert RotateRight(rt).right == b && RotateRight(rt).left == c.left;
    assert RotateLeft(t') == Node(c.data, d, b, Max(Height(d), Height(b)) + 1);
  }

  /** What holds of a node right after insertAt has replaced one child by
      the result of inserting `x` into it: the children are AVL trees, the
      heights differ by at most 2, and on a difference of 2 the taller child
      is a node whose balance leans towards the side `x` went down. */
  ghost predicate InsertShape(node: Tree, x: int)
  {
    ChildrenAvl(node) &&
    -2 <= Height(node.left) - Height(node.right) <= 2 &&
    (Height(node.left) - Height(node.right) == 2 ==>
       node.left.Node? && x != node.left.data &&
       (x < node.left.data ==> Balance(node.left) == 1) &&
       (x > node.left.data ==> Balance(node.left) == -1)) &&
    (Height(node.left) - Height(node.right) == -2 ==>
       node.right.Node? && x != node.right.data &&
       (x > node.right.data ==> Balance(node.right) == -1) &&
       (x < node.right.data ==> Balance(node.right) == 1))
  }

  /** The second half of insertAt: recompute the node's height, then choose
      the LL, LR, RR or RL rotation by comparing `x` with the taller child's
      value. Without an imbalance the node is returned with its new height;
      after a rotation the subtree is one level lower than before it. */
  function Rebalance(node: Tree, x: int): (r: Tree)
    requires InsertShape(node, x)
    ensures Avl(r) && Values(r) == Values(node) && InOrder(r) == InOrder(node)
    ensures -1 <= Height(node.left) - Height(node.right) <= 1 ==>
              r == node.(height := 1 + Max(Height(node.left), Height(node.right)))
    ensures Height(node.left) - Height(node.right) in {2, -2} ==>
              Height(r) == Max(Height(node.left), Height(node.right))
  {
    var n := node.(height := 1 + Max(Height(node.left), Height(node.right)));
    var balanceFactor := Balance(n);
    if balanceFactor > 1 && x < n.left.data then
      RotateRightFixesLeftLeft(n);
      RotateRight(n)
    else if balanceFactor > 1 && x > n.left.data then
      DoubleRotationFixesLeftRight(n);
      RotateRight(n.(left := RotateLeft(n.left)))
    else if balanceFactor < -1 && x > n.right.data then
      RotateLeftFixesRightRight(n);
      RotateLeft(n)
    else if balanceFactor < -1 && x < n.right.data then
      DoubleRotationFixesRightLeft(n);
      RotateLeft(n.(right := RotateRight(n.right)))
    else
      n
  }

  /** What insertAt promises about inserting `x` into `t` with result `r`:
      `r` is a valid AVL tree holding the old values plus `x`; a value already
      present leaves the subtree unchanged; the height grows by at most one,
      and when it grows the root is the old root, leaning towards the side
      `x` went down. */
  ghost predicate InsertResult(t: Tree, x: int, r: Tree)
  {
    Avl(r) &&
    Values(r) == Values(t) + {x} &&
    (x in Values(t) ==> r == t) &&
    (Height(r) == Height(t) || Height(r) == Height(t) + 1) &&
    (t.Nil? ==> r == Node(x, Nil, Nil, 1)) &&
    (t.Node? && Height(r) == Height(t) + 1 ==>
       r.Node? && r.data == t.data &&
       (x < t.data ==> Balance(r) == 1) && (x > t.data ==> Balance(r) == -1))
  }

  /** The step of insertAt that descends left: given what the recursive call
      promises, the node is fit for Rebalance and the result keeps the
      promise one level up. */
  lemma InsertLeftStep(t: Tree, x: int, l: Tree)
    requires Avl(t) && t.Node? && x < t.data
    requires InsertResult(t.left, x, l)
    ensures InsertShape(t.(left := l), x)
    ensures InsertResult(t, x, Rebalance(t.(left := l), x))
  {
    var n := t.(left := l);
    assert Ordered(n) by {
      assert Values(l) == Values(t.left) + {x};
    }
    if Height(l) - Height(t.right) == 2 {
      assert t.left.Node?;
      assert l != t.left;
      assert t.left.data in Values(t.left);
    }
    if x in Values(t) {
      assert Values(t) == Values(t.left) + {t.data} + Values(t.right);
      assert x !in Values(t.right);
      assert x in Values(t.left);
    }
  }

  /** The step of insertAt that descends right, the mirror of InsertLeftStep. */
  lemma InsertRightStep(t: Tree, x: int, rt: Tree)
    requires Avl(t) && t.Node? && x > t.data
    requires InsertResult(t.right, x, rt)
    ensures InsertShape(t.(right := rt), x)
    ensures InsertResult(t, x, Rebalance(t.(right := rt), x))
  {
    var n := t.(right := rt);
    assert Ordered(n) by {
      assert Values(rt) == Values(t.right) + {x};
    }
    if Height(t.left) - Height(rt) == -2 {
      assert t.right.Node?;
      assert rt != t.right;
      assert t.right.data in Values(t.right);
    }
    if x in Values(t) {
      assert Values(t) == Values(t.left) + {t.data} + Values(t.right);
      assert x !in Values(t.left);
      assert x in Values(t.right);
    }
  }

  /** insertAt: descend by comparing with each node's value, insert a new
      leaf with height 1, and rebalance every node on the way back up. An
      equal value returns the subtree unchanged. */
  function InsertAt(t: Tree, x: int): (r: Tree)
    requires Avl(t)
    ensures Avl(r)
    ensures Values(r) == Values(t) + {x}
    ensures x in Values(t) ==> r == t
    ensures InsertResult(t, x, r)
  {
    if t.Nil? then
      Node(x, Nil, Nil, 1)
    else if x < t.data then
      var l := InsertAt(t.left, x);
      InsertLeftStep(t, x, l);
      Rebalance(t.(left := l), x)
    else if x > t.data then
      var rt := InsertAt(t.right, x);
      InsertRightStep(t, x, rt);
      Rebalance(t.(right := rt), x)
    else
      t
  }

  /** containsAt: descend comparing with <, > and ==. */
  function ContainsAt(t: Tree, x: int): (r: bool)
    requires Ordered(t)
    ensures r <==> x in Values(t)
  {
    if t.Nil? then false
    else if x == t.data then true
    else if x < t.data then ContainsAt(t.left, x)
    else if x > t.data then ContainsAt(t.right, x)
    else false
  }

  /** In-order traversal lists exactly the tree's values. */
  lemma {:induction false} InOrderValues(t: Tree)
    ensures forall v :: v in InOrder(t) <==> v in Values(t)
  {
    if t.Node? {
      InOrderValues(t.left);
      InOrderValues(t.right);
    }
  }

  /** In-order traversal of an ordered tree is strictly ascending. */
  lemma {:induction false} InOrderAscending(t: Tree)
    requires Ordered(t)
    ensures StrictlyAscending(InOrder(t))
  {
    if t.Node? {
      InOrderAscending(t.left);
      InOrderAscending(t.right);
      InOrderValues(t.left);
      InOrderValues(t.right);
      var s := InOrder(t);
      var L := InOrder(t.left);
      var R := InOrder(t.right);
      assert s == L + [t.data] + R;
      forall i, j | 0 <= i < j < |s| ensures s[i] < s[j] {
        if j < |L| {
          assert s[i] == L[i] && s[j] == L[j];
        } else if j == |L| {
          assert s[i] == L[i] && L[i] in L;
        } else if i < |L| {
          assert s[i] == L[i] && L[i] in L;
          assert s[j] == R[j - |L| - 1] && R[j - |L| - 1] in R;
        } else if i == |L| {
          assert s[j] == R[j - |L| - 1] && R[j - |L| - 1] in R;
        } else {
          assert s[i] == R[i - |L| - 1] && s[j] == R[j - |L| - 1];
        }
      }
    }
  }

  /** copySubtree as written: every copied node is built with the
      three-argument Node constructor, which sets its height to 1. */
  function CopySubtreeAsWritten(t: Tree): (r: Tree)
    ensures Values(r) == Values(t) && InOrder(r) == InOrder(t)
    ensures PreOrder(r) == PreOrder(t) && PostOrder(r) == PostOrder(t)
  {
    if t.Nil? then Nil else Node(t.data, CopySubtreeAsWritten(t.left), CopySubtreeAsWritten(t.right), 1)
  }

  /** A valid two-node tree whose copy carries a wrong cached height at the
      root: the copy is not a valid AVL tree any more. */
  lemma CopyLosesHeights()
    ensures var t := Node(2, Node(1, Nil, Nil, 1), Nil, 2);
            Avl(t) && !HeightsOk(CopySubtreeAsWritten(t))
  {
    var t := Node(2, Node(1, Nil, Nil, 1), Nil, 2);
    assert Values(t.left) == {1};
    assert CopySubtreeAsWritten(t) == Node(2, Node(1, Nil, Nil, 1), Nil, 1);
  }

  /** copySubtree as intended: copied nodes carry the heights of the
      originals, so the copy of a valid tree is the same valid tree. */
  function CopySubtree(t: Tree): (r: Tree)
    ensures Values(r) == Values(t) && InOrder(r) == InOrder(t)
    ensures HeightsOk(t) ==> r == t
  {
    if t.Nil? then Nil
    else
      var l := CopySubtree(t.left);
      var rt := CopySubtree(t.right);
      Node(t.data, l, rt, 1 + Max(Height(l), Height(rt)))
  }

  /** The set object: the root pointer m_root and its operations. */
  class AVLSet {
    var root: Tree

    ghost predicate Valid()
      reads this
    {
      Avl(root)
    }

    constructor ()
      ensures Valid() && root == Nil
    {
      root := Nil;
    }

    /** The copy constructor, with the corrected copySubtree. */
    constructor Copy(other: AVLSet)
      requires other.Valid()
      ensures Valid() && root == other.root
    {
      root := CopySubtree(other.root);
    }

    /** The move constructor takes the source's root and leaves it empty. */
    constructor Move(other: AVLSet)
      requires other.Valid()
      modifies other
      ensures Valid() && other.Valid()
      ensures root == old(other.root) && other.root == Nil
    {
      root := other.root;
      new;
      other.root := Nil;
    }

    /** Copy assignment, with the corrected copySubtree. */
    method CopyAssign(other: AVLSet)
      requires Valid() && other.Valid()
      modifies this
      ensures Valid() && root == old(other.root)
    {
      if other.root == Nil {
        root := Nil;
        return;
      }
      if this == other {
        return;
      }
      root := CopySubtree(other.root);
    }

    /** Move assignment hands the root over and empties the source. */
    method MoveAssign(other: AVLSet)
      requires Valid() && other.Valid()
      modifies this, other
      ensures Valid() && other.Valid()
      ensures other != this ==> root == old(other.root) && other.root == Nil
      ensures other == this ==> root == old(root)
    {
      if this == other {
        return;
      }
      root := other.root;
      other.root := Nil;
    }

    /** Insert keeps the tree a valid AVL tree and adds exactly `x`. */
    method Insert(x: int)
      requires Valid()
      modifies this
      ensures Valid()
      ensures root == InsertAt(old(root), x)
      ensures Values(root) == old(Values(root)) + {x}
      ensures x in old(Values(root)) ==> root == old(root)
    {
      root := InsertAt(root, x);
    }

    method Contains(x: int) returns (r: bool)
      requires Valid()
      ensures r <==> x in Values(root)
    {
      r := ContainsAt(root, x);
    }

    /** ForEachNode with a visitor that records the values it is given. */
    method ForEachNode(order: TraversalOrder) returns (visited: seq<int>)
      requires Valid()
      ensures order.InOrderTraversal? ==> visited == InOrder(root) && StrictlyAscending(visited)
      ensures order.PreOrderTraversal? ==> visited == PreOrder(root)
      ensures order.PostOrderTraversal? ==> visited == PostOrder(root)
    {
      match order
      case InOrderTraversal =>
        InOrderAscending(root);
        visited := InOrder(root);
      case PreOrderTraversal =>
        visited := PreOrder(root);
      case PostOrderTraversal =>
        visited := PostOrder(root);
    }
  }

  /** The trees the test fixture builds by inserting 5, 3, 8, 1, 4. */
  function Leaf(x: int): Tree { Node(x, Nil, Nil, 1) }

  lemma LeafAvl(x: int)
    ensures Avl(Leaf(x)) && Values(Leaf(x)) == {x}
    ensures InOrder(Leaf(x)) == PreOrder(Leaf(x)) == PostOrder(Leaf(x)) == [x]
  {
    var t := Leaf(x);
    assert Values(t.left) == {} && Values(t.right) == {};
    assert Height(t.left) == 0 && Height(t.right) == 0 && Balance(t) == 0;
    assert Balanced(t.left) && Balanced(t.right);
    assert HeightsOk(t) && Balanced(t) && Ordered(t);
    assert InOrder(t.left) == [] && PreOrder(t.left) == [] && PostOrder(t.left) == [];
  }

  lemma {:induction false} InsertSecond(q: int, s: int)
    requires q < s
    ensures Avl(Leaf(s))
    ensures InsertAt(Leaf(s), q) == Node(s, Leaf(q), Nil, 2)
  {
    LeafAvl(s);
    assert InsertAt(Nil, q) == Leaf(q);
    assert InsertAt(Leaf(s), q) == Rebalance(Node(s, Leaf(q), Nil, 1), q);
  }

  lemma {:induction false} InsertThird(q: int, s: int, u: int)
    requires q < s < u
    ensures Avl(Node(s, Leaf(q), Nil, 2))
    ensures InsertAt(Node(s, Leaf(q), Nil, 2), u) == Node(s, Leaf(q), Leaf(u), 2)
  {
    LeafAvl(q); LeafAvl(u);
    var t := Node(s, Leaf(q), Nil, 2);
    assert Values(t) == {q, s};
    assert Avl(t);
    assert InsertAt(Nil, u) == Leaf(u);
    assert InsertAt(t, u) == Rebalance(Node(s, Leaf(q), Leaf(u), 2), u);
  }

  lemma {:induction false} InsertFourth(p: int, q: int, s: int, u: int)
    requires p < q < s < u
    ensures Avl(Node(s, Leaf(q), Leaf(u), 2))
    ensures InsertAt(Node(s, Leaf(q), Leaf(u), 2), p) == Node(s, Node(q, Leaf(p), Nil, 2), Leaf(u), 3)
  {
    LeafAvl(q); LeafAvl(u); LeafAvl(p);
    var t := Node(s, Leaf(q), Leaf(u), 2);
    assert Values(t) == {q, s, u};
    assert Avl(t);
    assert InsertAt(Nil, p) == Leaf(p);
    assert InsertAt(Leaf(q), p) == Rebalance(Node(q, Leaf(p), Nil, 1), p);
    assert InsertAt(t, p) == Rebalance(Node(s, Node(q, Leaf(p), Nil, 2), Leaf(u), 2), p);
  }

  lemma {:induction false} InsertFifth(p: int, q: int, r: int, s: int, u: int)
    requires p < q < r < s < u
    ensures Avl(Node(s, Node(q, Leaf(p), Nil, 2), Leaf(u), 3))
    ensures InsertAt(Node(s, Node(q, Leaf(p), Nil, 2), Leaf(u), 3), r)
            == Node(s, Node(q, Leaf(p), Leaf(r), 2), Leaf(u), 3)
  {
    LeafAvl(p); LeafAvl(u); LeafAvl(r);
    var l := Node(q, Leaf(p), Nil, 2);
    var t := Node(s, l, Leaf(u), 3);
    assert Values(l) == {p, q};
    assert Avl(l);
    assert Values(t) == {p, q, s, u};
    assert Avl(t);
    assert InsertAt(Nil, r) == Leaf(r);
    assert InsertAt(l, r) == Rebalance(Node(q, Leaf(p), Leaf(r), 2), r);
    var n := Node(s, Node(q, Leaf(p), Leaf(r), 2), Leaf(u), 3);
    assert InsertAt(t, r) == Rebalance(n, r);
  }

  /** Inserting five values in the order s, q, u, p, r, where
      p < q < r < s < u, builds the tree whose traversals are as follows. */
  lemma {:induction false} InsertFiveOrdered(p: int, q: int, r: int, s: int, u: int)
    requires p < q < r < s < u
    ensures var t := InsertAt(InsertAt(InsertAt(InsertAt(InsertAt(Nil, s), q), u), p), r);
            InOrder(t) == [p, q, r, s, u] &&
            PreOrder(t) == [s, q, p, r, u] &&
            PostOrder(t) == [p, r, q, u, s]
  {
    assert InsertAt(Nil, s) == Leaf(s);
    InsertSecond(q, s);
    InsertThird(q, s, u);
    InsertFourth(p, q, s, u);
    InsertFifth(p, q, r, s, u);
    LeafAvl(p); LeafAvl(r); LeafAvl(u);
    assert InOrder(Node(q, Leaf(p), Leaf(r), 2)) == [p, q, r];
    assert PreOrder(Node(q, Leaf(p), Leaf(r), 2)) == [q, p, r];
    assert PostOrder(Node(q, Leaf(p), Leaf(r), 2)) == [p, r, q];
  }

  /** Inserting 5, 3, 8, 1, 4 into an empty set gives the three traversals
      the library's tests expect. */
  lemma InsertFiveValues()
    ensures var t := InsertAt(InsertAt(InsertAt(InsertAt(InsertAt(Nil, 5), 3), 8), 1), 4);
            InOrder(t) == [1, 3, 4, 5, 8] &&
            PreOrder(t) == [5, 3, 1, 4, 8] &&
            PostOrder(t) == [1, 4, 3, 8, 5]
  {
    InsertFiveOrdered(1, 3, 4, 5, 8);
  }
}
