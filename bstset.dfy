/** The unbalanced binary search tree set. A tree is a value: a subtree is
    either empty or a node holding a value and two child subtrees. */
module BstSet {

  datatype Tree = Nil | Node(data: int, left: Tree, right: Tree)

  datatype TraversalOrder = InOrderTraversal | PreOrderTraversal | PostOrderTraversal

  function Values(t: Tree): set<int>
  {
    if t.Nil? then {} else Values(t.left) + {t.data} + Values(t.right)
  }

  /** The number of nodes. */
  function Size(t: Tree): nat
  {
    if t.Nil? then 0 else Size(t.left) + 1 + Size(t.right)
  }

  /** The strict search-tree ordering at every node. */
  ghost predicate Ordered(t: Tree)
  {
    t.Nil? ||
    (Ordered(t.left) && Ordered(t.right) &&
     (forall v :: v in Values(t.left) ==> v < t.data) &&
     (forall v :: v in Values(t.right) ==> t.data < v))
  }

  function InOrder(t: Tree): seq<int>
  {
    if t.Nil? then [] else InOrder(t.left) + [t.data] + InOrder(t.right)
  }

  function PreOrder(t: Tree): seq<int>
  {
    if t.Nil? then [] else [t.data] + PreOrder(t.left) + PreOrder(t.right)
  }

  function PostOrder(t: Tree): seq<int>
  {
    if t.Nil? then [] else PostOrder(t.left) + PostOrder(t.right) + [t.data]
  }

  ghost predicate StrictlyAscending(s: seq<int>)
  {
    forall i, j :: 0 <= i < j < |s| ==> s[i] < s[j]
  }

  /** `r` is `t` with exactly one empty subtree replaced by a leaf holding
      `x`: every node of `t` is still there, with the same value, at the
      same position. */
  ghost predicate AddsLeaf(t: Tree, x: int, r: Tree)
  {
    match t
    case Nil => r == Node(x, Nil, Nil)
    case Node(d, l, rt) =>
      r.Node? && r.data == d &&
      ((AddsLeaf(l, x, r.left) && r.right == rt) ||
       (r.left == l && AddsLeaf(rt, x, r.right)))
  }

  lemma {:induction false} AddsLeafGrows(t: Tree, x: int, r: Tree)
    requires AddsLeaf(t, x, r)
    ensures Size(r) == Size(t) + 1 && Values(r) == Values(t) + {x}
    decreases t
  {
    match t
    case Nil =>
    case Node(_, l, rt) =>
      if AddsLeaf(l, x, r.left) && r.right == rt {
        AddsLeafGrows(l, x, r.left);
      } else {
        AddsLeafGrows(rt, x, r.right);
      }
  }

  /** insertAt, both the copying and the moving overload: descend by
      comparison, put the value in a new leaf where the search falls off the
      tree, and leave the tree alone when the value is found. */
  function InsertAt(t: Tree, x: int): (r: Tree)
    ensures Values(r) == Values(t) + {x}
    ensures Ordered(t) && x in Values(t) ==> r == t
    ensures x !in Values(t) ==> AddsLeaf(t, x, r) && Size(r) == Size(t) + 1
    ensures Ordered(t) ==> Ordered(r)
  {
    if t.Nil? then
      Node(x, Nil, Nil)
    else if x < t.data then
      var l := InsertAt(t.left, x);
      t.(left := l)
    else if x > t.data then
      var rt := InsertAt(t.right, x);
      t.(right := rt)
    else
      t
  }

  /** containsAt: a search that follows one path from the root. */
  function ContainsAt(t: Tree, x: int): (r: bool)
    requires Ordered(t)
    ensures r <==> x in Values(t)
  {
    if t.Nil? then false
    else if x == t.data then true
    else if x < t.data then ContainsAt(t.left, x)
    else if x > t.data then ContainsAt(t.right, x)
    else false
  }

  /** In-order traversal visits every node once: exactly the tree's
      values, one per node. */
  lemma {:induction false} InOrderValues(t: Tree)
    ensures forall v :: v in InOrder(t) <==> v in Values(t)
    ensures |InOrder(t)| == Size(t)
  {
    if t.Node? {
      InOrderValues(t.left);
      InOrderValues(t.right);
    }
  }

  /** In-order traversal of an ordered tree visits its values in strictly
      ascending order. */
  lemma {:induction false} InOrderAscending(t: Tree)
    requires Ordered(t)
    ensures StrictlyAscending(InOrder(t))
  {
    if t.Node? {
      InOrderAscending(t.left);
      InOrderAscending(t.right);
      InOrderValues(t.left);
      InOrderValues(t.right);
      var L, R := InOrder(t.left), InOrder(t.right);
      var s := InOrder(t);
      assert s == L + [t.data] + R;
      forall i, j | 0 <= i < j < |s|
        ensures s[i] < s[j]
      {
        if j < |L| {
        } else if i < |L| {
          assert L[i] in Values(t.left);
          if j > |L| {
            assert R[j - |L| - 1] in Values(t.right);
          }
        } else if i == |L| {
          assert R[j - |L| - 1] in Values(t.right);
        } else {
        }
      }
    }
  }

  class BSTSet {
    var root: Tree

    ghost predicate Valid()
      reads this
    {
      Ordered(root)
    }

    constructor ()
      ensures Valid() && root == Nil
    {
      root := Nil;
    }

    /** The move constructor takes the source's root and leaves it empty. */
    constructor Move(other: BSTSet)
      requires other.Valid()
      modifies other
      ensures Valid() && other.Valid()
      ensures root == old(other.root) && other.root == Nil
    {
      root := other.root;
      new;
      other.root := Nil;
    }

    /** Move assignment: a self-move changes nothing. */
    method MoveAssign(other: BSTSet)
      requires Valid() && other.Valid()
      modifies this, other
      ensures Valid() && other.Valid()
      ensures other == this ==> root == old(root)
      ensures other != this ==> root == old(other.root) && other.root == Nil
    {
      if this == other {
        return;
      }
      root := other.root;
      other.root := Nil;
    }

    /** Insert, both overloads. */
    method Insert(x: int)
      requires Valid()
      modifies this
      ensures Valid()
      ensures root == InsertAt(old(root), x)
      ensures Values(root) == Values(old(root)) + {x}
      ensures x in Values(old(root)) ==> root == old(root)
    {
      root := InsertAt(root, x);
    }

    method Contains(x: int) returns (r: bool)
      requires Valid()
      ensures r <==> x in Values(root)
    {
      r := ContainsAt(root, x);
    }

    /** ForEachNode: the values in the order the callback would see them. */
    method ForEachNode(order: TraversalOrder) returns (visited: seq<int>)
      requires Valid()
      ensures order == InOrderTraversal ==>
                visited == InOrder(root) && StrictlyAscending(visited)
      ensures order == PreOrderTraversal ==> visited == PreOrder(root)
      ensures order == PostOrderTraversal ==> visited == PostOrder(root)
    {
      match order
      case InOrderTraversal =>
        InOrderAscending(root);
        visited := InOrder(root);
      case PreOrderTraversal =>
        visited := PreOrder(root);
      case PostOrderTraversal =>
        visited := PostOrder(root);
    }
  }
}
