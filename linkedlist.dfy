/** The doubly linked ring list. A sentinel link `end` closes the ring: its
    `next` is the first node and its `prev` the last, and an empty list has
    the sentinel linked to itself. The ghost sequence `nodes` lists the data
    nodes from front to back and `Contents` their values. */
module List {

  /** A link of the ring: the sentinel, or a node carrying a value. Links
      are allocated with both pointers unset. */
  class Link<T(0)> {
    var prev: Link?<T>
    var next: Link?<T>
    var value: T

    constructor (v: T)
      ensures prev == null && next == null && value == v
    {
      prev, next, value := null, null, v;
    }

    constructor Sentinel()
      ensures prev == null && next == null
    {
      prev, next := null, null;
    }
  }

  /** No element occurs twice in `s`. */
  ghost predicate Distinct<X>(s: seq<X>)
  {
    forall i, j :: 0 <= i < j < |s| ==> s[i] != s[j]
  }

  lemma DistinctRemove<X>(s: seq<X>, pos: nat)
    requires Distinct(s) && pos < |s|
    ensures Distinct(s[..pos] + s[pos + 1..])
  {
    var r := s[..pos] + s[pos + 1..];
    forall i, j | 0 <= i < j < |r|
      ensures r[i] != r[j]
    {
      assert r[i] == s[if i < pos then i else i + 1];
      assert r[j] == s[if j < pos then j else j + 1];
    }
  }

  lemma DistinctInsert<X>(s: seq<X>, pos: nat, x: X)
    requires Distinct(s) && pos <= |s| && x !in s
    ensures Distinct(s[..pos] + [x] + s[pos..])
  {
    var r := s[..pos] + [x] + s[pos..];
    forall i, j | 0 <= i < j < |r|
      ensures r[i] != r[j]
    {
      if i != pos && j != pos {
        assert r[i] == s[if i < pos then i else i - 1];
        assert r[j] == s[if j < pos then j else j - 1];
      } else if i == pos {
        assert r[j] == s[j - 1];
      } else {
        assert r[i] == s[i];
      }
    }
  }

  /** `ns` are the data nodes of the ring closed by the sentinel `e`, in
      order: all distinct, each linked both ways to its neighbours, the first
      and the last linked to the sentinel. With no nodes the sentinel is
      linked to itself. */
  ghost predicate Ring<T(0)>(e: Link<T>, ns: seq<Link<T>>)
    reads e, ns
  {
    (forall i :: 0 <= i < |ns| ==> ns[i] != e) &&
    Distinct(ns) &&
    e.next == (if |ns| == 0 then e else ns[0]) &&
    e.prev == (if |ns| == 0 then e else ns[|ns| - 1]) &&
    (|ns| > 0 ==> ns[0].prev == e && ns[|ns| - 1].next == e) &&
    (forall i :: 0 <= i < |ns| - 1 ==> ns[i].next == ns[i + 1] && ns[i + 1].prev == ns[i])
  }

  /** A position in a list about to be relinked: the sentinel `e`, the data
      nodes `was` in order, the values `cs` they carry, a set `R` holding
      them, and the index `pos` where a node is removed or added. */
  datatype Site<T(0)> = Site(e: Link<T>, was: seq<Link<T>>, cs: seq<T>, R: set<object>, pos: nat)

  /** The link at ring position `k`: the data node at index `k`, and the
      sentinel one position before the first and one after the last. */
  function At<T(0)>(e: Link<T>, ns: seq<Link<T>>, k: int): Link<T>
    requires -1 <= k <= |ns|
  {
    if 0 <= k < |ns| then ns[k] else e
  }

  /** Unlinking the node at index `pos` by pointing its two neighbours at
      each other, and changing no other link, leaves a ring of the remaining
      nodes. */
  twostate lemma RingAfterUnlink<T(0)>(s: Site<T>)
    requires s.pos < |s.was| && old(Ring(s.e, s.was))
    requires At(s.e, s.was, s.pos - 1).next == At(s.e, s.was, s.pos + 1)
    requires At(s.e, s.was, s.pos + 1).prev == At(s.e, s.was, s.pos - 1)
    requires forall o: Link<T> :: old(allocated(o)) && o != At(s.e, s.was, s.pos - 1) ==> o.next == old(o.next)
    requires forall o: Link<T> :: old(allocated(o)) && o != At(s.e, s.was, s.pos + 1) ==> o.prev == old(o.prev)
    ensures Ring(s.e, s.was[..s.pos] + s.was[s.pos + 1..])
  {
    var e, was, pos := s.e, s.was, s.pos as int;
    var ns := was[..pos] + was[pos + 1..];
    assert forall i :: 0 <= i < |ns| ==> ns[i] == was[if i < pos then i else i + 1];
    DistinctRemove(was, pos);
    forall i | 0 <= i < |ns| - 1
      ensures ns[i].next == ns[i + 1] && ns[i + 1].prev == ns[i]
    {
      if i < pos - 1 {
        assert ns[i] == was[i] && ns[i + 1] == was[i + 1];
        assert old(was[i].next) == was[i + 1] && old(was[i + 1].prev) == was[i];
      } else if i == pos - 1 {
        assert ns[i] == was[pos - 1] && ns[i + 1] == was[pos + 1];
      } else {
        assert ns[i] == was[i + 1] && ns[i + 1] == was[i + 2];
        assert old(was[i + 1].next) == was[i + 2] && old(was[i + 2].prev) == was[i + 1];
      }
    }
  }

  /** Linking a node `x` that is not in the ring in front of index `pos`,
      between its two future neighbours, and changing no other link, gives
      a ring with `x` at index `pos`. */
  twostate lemma RingAfterInsert<T(0)>(s: Site<T>, new x: Link<T>)
    requires s.pos <= |s.was| && old(Ring(s.e, s.was))
    requires x != s.e && forall i :: 0 <= i < |s.was| ==> s.was[i] != x
    requires x.prev == At(s.e, s.was, s.pos - 1) && x.next == At(s.e, s.was, s.pos)
    requires At(s.e, s.was, s.pos - 1).next == x && At(s.e, s.was, s.pos).prev == x
    requires forall o: Link<T> :: old(allocated(o)) && o != x && o != At(s.e, s.was, s.pos - 1) ==> o.next == old(o.next)
    requires forall o: Link<T> :: old(allocated(o)) && o != x && o != At(s.e, s.was, s.pos) ==> o.prev == old(o.prev)
    ensures Ring(s.e, s.was[..s.pos] + [x] + s.was[s.pos..])
  {
    var e, was, pos := s.e, s.was, s.pos as int;
    var ns := was[..pos] + [x] + was[pos..];
    assert forall i :: 0 <= i < |ns| && i != pos ==> ns[i] == was[if i < pos then i else i - 1];
    assert ns[pos] == x;
    DistinctInsert(was, pos, x);
    forall i | 0 <= i < |ns| - 1
      ensures ns[i].next == ns[i + 1] && ns[i + 1].prev == ns[i]
    {
      if i < pos - 1 {
        assert ns[i] == was[i] && ns[i + 1] == was[i + 1];
        assert old(was[i].next) == was[i + 1] && old(was[i + 1].prev) == was[i];
      } else if i == pos - 1 {
        assert ns[i] == was[pos - 1] && ns[i + 1] == x;
      } else if i == pos {
        assert ns[i + 1] == was[pos];
      } else {
        assert ns[i] == was[i - 1] && ns[i + 1] == was[i];
        assert old(was[i - 1].next) == was[i] && old(was[i].prev) == was[i - 1];
      }
    }
  }

  /** The nodes `ns` carry the values `cs`, one each, and all belong to `R`. */
  ghost predicate Carries<T(0)>(ns: seq<Link<T>>, cs: seq<T>, R: set<object>)
    reads ns
  {
    |ns| == |cs| && forall i :: 0 <= i < |ns| ==> ns[i] in R && ns[i].value == cs[i]
  }

  /** Relinking changes no value: removing the node at `pos` leaves the
      others carrying the remaining values. */
  twostate lemma CarriesAfterUnlink<T(0)>(s: Site<T>)
    requires s.pos < |s.was| && old(Carries(s.was, s.cs, s.R))
    requires Distinct(s.was)
    requires forall o: Link<T> :: old(allocated(o)) ==> o.value == old(o.value)
    ensures Carries(s.was[..s.pos] + s.was[s.pos + 1..], s.cs[..s.pos] + s.cs[s.pos + 1..], s.R - {s.was[s.pos]})
  {
    var was, cs, R, pos := s.was, s.cs, s.R, s.pos;
    var ns, vs := was[..pos] + was[pos + 1..], cs[..pos] + cs[pos + 1..];
    forall i | 0 <= i < |ns|
      ensures ns[i] in R - {was[pos]} && ns[i].value == vs[i]
    {
      var k := if i < pos then i else i + 1;
      assert ns[i] == was[k] && vs[i] == cs[k];
      assert old(was[k].value) == cs[k];
    }
  }

  /** Relinking changes no value: a node `x` added at `pos` carries its own
      value and the others keep theirs. */
  twostate lemma CarriesAfterInsert<T(0)>(s: Site<T>, new x: Link<T>)
    requires s.pos <= |s.was| && old(Carries(s.was, s.cs, s.R))
    requires forall o: Link<T> :: old(allocated(o)) ==> o.value == old(o.value)
    ensures Carries(s.was[..s.pos] + [x] + s.was[s.pos..], s.cs[..s.pos] + [x.value] + s.cs[s.pos..], s.R + {x})
  {
    var was, cs, R, pos := s.was, s.cs, s.R, s.pos;
    var ns, vs := was[..pos] + [x] + was[pos..], cs[..pos] + [x.value] + cs[pos..];
    forall i | 0 <= i < |ns|
      ensures ns[i] in R + {x} && ns[i].value == vs[i]
    {
      if i != pos {
        var k := if i < pos then i else i - 1;
        assert ns[i] == was[k] && vs[i] == cs[k];
        assert old(was[k].value) == cs[k];
      }
    }
  }

  class LinkedList<T(0)> {
    const end: Link<T>
    var size: nat
    ghost var nodes: seq<Link<T>>
    ghost var Contents: seq<T>
    ghost var Repr: set<object>

    /** The ring invariant. */
    ghost predicate Valid()
      reads this, Repr
    {
      this in Repr && end in Repr && size == |nodes| &&
      (forall i :: 0 <= i < |nodes| ==> nodes[i] in Repr) &&
      Carries(nodes, Contents, Repr) && Ring(end, nodes)
    }

    /** The default constructor: a sentinel linked to itself. */
    constructor ()
      ensures Valid() && fresh(Repr) && Contents == []
      ensures end.next == end && end.prev == end
    {
      var e := new Link.Sentinel();
      e.prev, e.next := e, e;
      end := e;
      size := 0;
      nodes, Contents := [], [];
      Repr := {this, e};
    }

    /** The range and initializer-list constructors: PushBack each element
        in turn. */
    constructor FromSeq(init: seq<T>)
      ensures Valid() && fresh(Repr) && Contents == init
    {
      var e := new Link.Sentinel();
      e.prev, e.next := e, e;
      end := e;
      size := 0;
      nodes, Contents := [], [];
      Repr := {this, e};
      new;
      var k := 0;
      while k < |init|
        invariant 0 <= k <= |init|
        invariant Valid() && fresh(Repr) && Contents == init[..k]
      {
        PushBack(init[k]);
        k := k + 1;
      }
    }

    /** The copy constructor: walk the source from its first node to its
        sentinel, pushing a copy of each value. The source is not changed. */
    constructor Copy(other: LinkedList<T>)
      requires other.Valid()
      ensures Valid() && fresh(Repr) && Contents == other.Contents
    {
      var e := new Link.Sentinel();
      e.prev, e.next := e, e;
      end := e;
      size := 0;
      nodes, Contents := [], [];
      Repr := {this, e};
      new;
      var p := other.end.next;
      ghost var k := 0;
      while p != other.end
        invariant 0 <= k <= |other.nodes| && p == At(other.end, other.nodes, k)
        invariant Valid() && fresh(Repr) && Contents == other.Contents[..k]
        decreases |other.nodes| - k
      {
        assert k + 1 < |other.nodes| ==> other.nodes[k].next == other.nodes[k + 1];
        PushBack(p.value);
        p := p.next;
        k := k + 1;
      }
    }

    /** The move constructor as intended: take over the source's nodes and
        leave the source empty. An empty source gives an empty list with its
        sentinel linked to itself. */
    constructor Move(other: LinkedList<T>)
      requires other.Valid()
      modifies other.Repr
      ensures Valid() && other.Valid()
      ensures nodes == old(other.nodes) && Contents == old(other.Contents)
      ensures other.Contents == [] && other.Repr == {other, other.end}
    {
      var e := new Link.Sentinel();
      e.prev, e.next := e, e;
      end := e;
      size := 0;
      nodes, Contents := [], [];
      Repr := {this, e};
      new;
      TakeOver(other);
    }

    /** The move constructor as written: the sentinel links are copied from
        the source whether or not it has nodes. */
    constructor MoveAsWritten(other: LinkedList<T>)
      requires other.Valid()
      modifies other.Repr
      ensures other.Valid() && other.Contents == [] && other.Repr == {other, other.end}
      ensures old(other.size) > 0 ==> Valid() && nodes == old(other.nodes) && Contents == old(other.Contents)
      ensures old(other.size) == 0 ==> end.next == other.end && end.prev == other.end && !Valid()
    {
      var e := new Link.Sentinel();
      e.prev, e.next := e, e;
      end := e;
      size := 0;
      nodes, Contents := [], [];
      Repr := {this, e};
      new;
      TakeOverAsWritten(other);
    }

    /** PushBack and EmplaceBack: link a new node between the last node and
        the sentinel. A sentinel whose `prev` is unset would be linked to the
        new node directly; the ring invariant never leaves it unset. */
    method PushBack(value: T)
      requires Valid()
      modifies Repr
      ensures Valid() && fresh(Repr - old(Repr))
      ensures Contents == old(Contents) + [value]
      ensures nodes[..|nodes| - 1] == old(nodes) && Repr == old(Repr) + {nodes[|nodes| - 1]}
    {
      var newNode := new Link(value);
      var last := end.prev;
      if last != null {
        Attach(last, newNode, end);
      } else {
        assert false;
      }
      size := size + 1;
      ghost var n := |nodes|;
      nodes, Contents := nodes[..n] + [newNode] + nodes[n..], Contents[..n] + [value] + Contents[n..];
      Repr := Repr + {newNode};
      LinkedKeepsValid(Spot(this, n), newNode);
      assert nodes == old(nodes) + [newNode] && Contents == old(Contents) + [value];
    }

    /** PushFront and EmplaceFront: link a new node between the sentinel and
        the first node; in an empty list the new node is also the last. */
    method PushFront(value: T)
      requires Valid()
      modifies Repr
      ensures Valid() && fresh(Repr - old(Repr))
      ensures Contents == [value] + old(Contents)
      ensures nodes[1..] == old(nodes) && Repr == old(Repr) + {nodes[0]}
    {
      var newNode := new Link(value);
      var first := end.next;
      Attach(end, newNode, first);
      size := size + 1;
      nodes, Contents := nodes[..0] + [newNode] + nodes[0..], Contents[..0] + [value] + Contents[0..];
      Repr := Repr + {newNode};
      LinkedKeepsValid(Spot(this, 0), newNode);
      assert nodes == [newNode] + old(nodes) && Contents == [value] + old(Contents);
    }

    /** PopFront: unlink the first node; the list must not be empty. */
    method PopFront()
      requires Valid() && size > 0
      modifies Repr
      ensures Valid() && Repr == old(Repr) - {old(nodes)[0]}
      ensures Contents == old(Contents)[1..] && nodes == old(nodes)[1..]
    {
      assert |nodes| > 1 ==> nodes[0].next == nodes[1];
      var second := end.next.next;
      Detach(end, second);
      size := size - 1;
      Repr := Repr - {nodes[0]};
      nodes, Contents := nodes[..0] + nodes[1..], Contents[..0] + Contents[1..];
      UnlinkedKeepsValid(Spot(this, 0));
      assert nodes == old(nodes)[1..] && Contents == old(Contents)[1..];
    }

    /** PopBack: unlink the last node; the list must not be empty. */
    method PopBack()
      requires Valid() && size > 0
      modifies Repr
      ensures Valid() && Repr == old(Repr) - {old(nodes)[|old(nodes)| - 1]}
      ensures Contents == old(Contents)[..|old(Contents)| - 1]
      ensures nodes == old(nodes)[..|old(nodes)| - 1]
    {
      ghost var n := |nodes|;
      assert n > 1 ==> nodes[n - 1].prev == nodes[n - 2];
      var previous := end.prev.prev;
      Detach(previous, end);
      size := size - 1;
      Repr := Repr - {nodes[n - 1]};
      nodes, Contents := nodes[..n - 1] + nodes[n..], Contents[..n - 1] + Contents[n..];
      UnlinkedKeepsValid(Spot(this, n - 1));
      assert nodes == old(nodes)[..n - 1] && Contents == old(Contents)[..n - 1];
    }

    method Front() returns (v: T)
      requires Valid() && size > 0
      ensures v == Contents[0]
    {
      v := end.next.value;
    }

    method Back() returns (v: T)
      requires Valid() && size > 0
      ensures v == Contents[|Contents| - 1]
    {
      v := end.prev.value;
    }

    method Size() returns (n: nat)
      requires Valid()
      ensures n == |Contents|
    {
      n := size;
    }

    method Empty() returns (b: bool)
      requires Valid()
      ensures b <==> Contents == []
    {
      b := size == 0;
    }

    /** The unlinking loop shared by Clear and the destructor: advance the
        sentinel's `next` past each node in turn until it points back at the
        sentinel. `freed` lists the nodes in the order they are released. */
    method UnlinkAll() returns (ghost freed: seq<Link<T>>)
      requires Valid()
      modifies end
      ensures end.next == end && end.prev == old(end.prev)
      ensures freed == nodes
    {
      ghost var k := 0;
      freed := [];
      while end.next != end
        invariant 0 <= k <= |nodes| && freed == nodes[..k]
        invariant end.next == (if k < |nodes| then nodes[k] else end)
        invariant end.prev == old(end.prev)
        decreases |nodes| - k
      {
        assert k + 1 < |nodes| ==> nodes[k].next == nodes[k + 1];
        var tmp := end.next;
        end.next := tmp.next;
        freed := freed + [tmp];
        k := k + 1;
      }
    }

    /** Clear: release every node, then link the sentinel to itself. */
    method Clear()
      requires Valid()
      modifies Repr
      ensures Valid() && Contents == [] && Repr == {this, end}
      ensures end.next == end && end.prev == end
    {
      if size == 0 {
        Repr := {this, end};
        return;
      }
      ghost var freed := UnlinkAll();
      end.prev := end;
      end.next := end;
      size := 0;
      nodes, Contents := [], [];
      Repr := {this, end};
    }

    /** The destructor runs the unlinking loop and leaves the sentinel's
        `prev` and the size as they were. */
    method Destroy() returns (ghost freed: seq<Link<T>>)
      requires Valid()
      modifies Repr
      ensures end.next == end && freed == old(nodes)
      ensures end.prev == old(end.prev) && size == old(size)
    {
      freed := UnlinkAll();
    }

    /** Copy assignment: unless assigning to itself, clear and then push a
        copy of each of the source's values. */
    method CopyAssign(other: LinkedList<T>)
      requires Valid() && other.Valid() && (this == other || Repr !! other.Repr)
      modifies Repr
      ensures Valid() && fresh(Repr - old(Repr)) && Contents == old(other.Contents)
      ensures this != other ==> Repr !! other.Repr && other.Valid()
    {
      if this == other {
        return;
      }
      Clear();
      var p := other.end.next;
      ghost var k := 0;
      while p != other.end
        invariant 0 <= k <= |other.nodes| && p == At(other.end, other.nodes, k)
        invariant Valid() && fresh(Repr - old(Repr)) && Repr !! other.Repr
        invariant other.Valid() && Contents == other.Contents[..k]
        decreases |other.nodes| - k
      {
        assert k + 1 < |other.nodes| ==> other.nodes[k].next == other.nodes[k + 1];
        PushBack(p.value);
        p := p.next;
        k := k + 1;
      }
    }

    /** The body shared by the move constructor and move assignment, as
        intended: an empty list takes the source's nodes by relinking them
        to its own sentinel, and the source is left empty. When the source
        has no nodes, both sentinels stay linked to themselves. */
    method TakeOver(other: LinkedList<T>)
      requires Valid() && nodes == [] && Repr == {this, end}
      requires other.Valid() && this != other && Repr !! other.Repr
      modifies this, end, other.Repr
      ensures Valid() && other.Valid()
      ensures nodes == old(other.nodes) && Contents == old(other.Contents)
      ensures Repr == {this, end} + (old(other.Repr) - {other, other.end})
      ensures other.Contents == [] && other.Repr == {other, other.end}
    {
      size := other.size;
      nodes, Contents := other.nodes, other.Contents;
      Repr := {this, end} + (other.Repr - {other, other.end});
      if other.size != 0 {
        TakeRing(end, other.end);
        MovedKeepsValid(other, this);
      }
      other.size := 0;
      other.nodes, other.Contents := [], [];
      other.Repr := {other, other.end};
    }

    /** The same body as written: the sentinel links are copied even from an
        empty source, which leaves this list's sentinel pointing at the
        source's sentinel instead of at itself. */
    method TakeOverAsWritten(other: LinkedList<T>)
      requires Valid() && nodes == [] && Repr == {this, end}
      requires other.Valid() && this != other && Repr !! other.Repr
      modifies this, end, other.Repr
      ensures other.Valid() && other.Contents == [] && other.Repr == {other, other.end}
      ensures old(other.size) > 0 ==> Valid() && nodes == old(other.nodes) && Contents == old(other.Contents)
      ensures old(other.size) == 0 ==> end.next == other.end && end.prev == other.end && !Valid()
    {
      size := other.size;
      if other.size != 0 {
        nodes, Contents := other.nodes, other.Contents;
        Repr := {this, end} + (other.Repr - {other, other.end});
      }
      TakeRing(end, other.end);
      if old(other.size) > 0 {
        MovedKeepsValid(other, this);
      }
      other.size := 0;
      other.nodes, other.Contents := [], [];
      other.Repr := {other, other.end};
    }

    /** Move assignment as intended: unless assigning to itself, clear, then
        take over the source's nodes. */
    method MoveAssign(other: LinkedList<T>)
      requires Valid() && other.Valid() && (this == other || Repr !! other.Repr)
      modifies Repr, other.Repr
      ensures Valid() && other.Valid()
      ensures this == other ==> nodes == old(nodes) && Contents == old(Contents)
      ensures this != other ==> nodes == old(other.nodes) && Contents == old(other.Contents)
      ensures this != other ==> other.Contents == [] && other.Repr == {other, other.end}
    {
      if this == other {
        return;
      }
      Clear();
      TakeOver(other);
    }

    /** Move assignment as written: after clearing, the sentinel links are
        copied unconditionally. */
    method MoveAssignAsWritten(other: LinkedList<T>)
      requires Valid() && other.Valid() && (this == other || Repr !! other.Repr)
      modifies Repr, other.Repr
      ensures other.Valid()
      ensures this == other ==> Valid() && nodes == old(nodes) && Contents == old(Contents)
      ensures this != other && old(other.size) > 0 ==>
                Valid() && nodes == old(other.nodes) && Contents == old(other.Contents)
      ensures this != other && old(other.size) == 0 ==>
                end.next == other.end && end.prev == other.end && !Valid()
    {
      if this == other {
        return;
      }
      Clear();
      TakeOverAsWritten(other);
    }

    /** Advancing an iterator `pos` times from begin(): the node at index
        `pos`, or the sentinel (end()) when `pos` is the size. */
    method Walk(pos: nat) returns (p: Link<T>)
      requires Valid() && pos <= size
      ensures p == (if pos < |nodes| then nodes[pos] else end)
    {
      p := end.next;
      var k := 0;
      while k < pos
        invariant 0 <= k <= pos
        invariant p == (if k < |nodes| then nodes[k] else end)
      {
        assert k + 1 < |nodes| ==> nodes[k].next == nodes[k + 1];
        p := p.next;
        k := k + 1;
      }
    }

    /** Unlink the node at index `pos` from its neighbours, which are then
        linked to each other. The node itself is not changed. */
    method Unlink(pos: nat) returns (node: Link<T>)
      requires Valid() && pos < size
      modifies Repr
      ensures Valid() && node == old(nodes)[pos] && Repr == old(Repr) - {node}
      ensures nodes == old(nodes)[..pos] + old(nodes)[pos + 1..]
      ensures Contents == old(Contents)[..pos] + old(Contents)[pos + 1..]
      ensures node.value == old(Contents)[pos]
    {
      node := Walk(pos);
      ghost var n := |nodes|;
      assert pos > 0 ==> nodes[pos - 1].next == nodes[pos];
      assert pos + 1 < n ==> nodes[pos].next == nodes[pos + 1];
      var before, after := node.prev, node.next;

      Detach(before, after);
      size := size - 1;
      Repr := Repr - {node};
      nodes := nodes[..pos] + nodes[pos + 1..];
      Contents := Contents[..pos] + Contents[pos + 1..];
      UnlinkedKeepsValid(Spot(this, pos));
    }

    /** Link `node`, which belongs to no list, in front of index `pos`
        (in front of the sentinel when `pos` is the size). */
    method LinkBefore(pos: nat, node: Link<T>)
      requires Valid() && pos <= size && node !in Repr
      modifies Repr, node
      ensures Valid() && Repr == old(Repr) + {node} && node.value == old(node.value)
      ensures nodes == old(nodes)[..pos] + [node] + old(nodes)[pos..]
      ensures Contents == old(Contents)[..pos] + [node.value] + old(Contents)[pos..]
    {
      var dest := Walk(pos);
      ghost var n := |nodes|;
      assert 0 < pos < n ==> nodes[pos - 1].next == nodes[pos];
      var before := dest.prev;
      Attach(before, node, dest);
      size := size + 1;
      Repr := Repr + {node};
      nodes := nodes[..pos] + [node] + nodes[pos..];
      Contents := Contents[..pos] + [node.value] + Contents[pos..];
      LinkedKeepsValid(Spot(this, pos), node);
    }

    /** Erase the element at index `pos`. */
    method Erase(pos: nat)
      requires Valid() && pos < size
      modifies Repr
      ensures Valid() && Repr == old(Repr) - {old(nodes)[pos]}
      ensures Contents == old(Contents)[..pos] + old(Contents)[pos + 1..]
    {
      var node := Unlink(pos);
    }

    /** Splice: move the node at index `it` of `other` in front of index
        `pos` of this list. The node is relinked, not copied. */
    method Splice(pos: nat, other: LinkedList<T>, it: nat)
      requires Valid() && other.Valid() && Repr !! other.Repr
      requires pos <= size && it < other.size
      modifies Repr, other.Repr
      ensures Valid() && other.Valid() && Repr !! other.Repr
      ensures nodes == old(nodes)[..pos] + [old(other.nodes)[it]] + old(nodes)[pos..]
      ensures Contents == old(Contents)[..pos] + [old(other.Contents)[it]] + old(Contents)[pos..]
      ensures other.nodes == old(other.nodes)[..it] + old(other.nodes)[it + 1..]
      ensures other.Contents == old(other.Contents)[..it] + old(other.Contents)[it + 1..]
    {
      var node := other.Unlink(it);
      LinkBefore(pos, node);
    }
  }

  /** Link `x` between `before` and `after`, which are adjacent in a ring:
      set both pointers of `x`, then point `before` forward and `after`
      back at it. No other link changes. */
  method Attach<T(0)>(before: Link<T>, x: Link<T>, after: Link<T>)
    requires x != before && x != after
    modifies before, x, after
    ensures x.prev == before && x.next == after && before.next == x && after.prev == x
    ensures before != after ==> before.prev == old(before.prev) && after.next == old(after.next)
    ensures before.value == old(before.value) && x.value == old(x.value) && after.value == old(after.value)
  {
    x.prev := before;
    x.next := after;
    before.next := x;
    after.prev := x;
  }

  /** Link `before` and `after` to each other, dropping whatever was between
      them. No other link changes. */
  method Detach<T(0)>(before: Link<T>, after: Link<T>)
    modifies before, after
    ensures before.next == after && after.prev == before
    ensures before != after ==> before.prev == old(before.prev) && after.next == old(after.next)
    ensures before.value == old(before.value) && after.value == old(after.value)
  {
    before.next := after;
    after.prev := before;
  }

  /** The sentinel copy shared by the move constructor and move assignment:
      `e` takes the links of the sentinel `oe`, the nodes they point at are
      pointed back at `e`, and `oe` is linked to itself. */
  method TakeRing<T(0)>(e: Link<T>, oe: Link<T>)
    requires e != oe && oe.next != null && oe.prev != null && oe.next != e && oe.prev != e
    modifies e, oe, oe.next, oe.prev
    ensures e.next == old(oe.next) && e.prev == old(oe.prev)
    ensures oe.next == oe && oe.prev == oe
    ensures old(oe.next) != oe ==> old(oe.next).prev == e
    ensures old(oe.prev) != oe ==> old(oe.prev).next == e
    ensures old(oe.next) != old(oe.prev) ==>
              old(oe.next).next == old(oe.next.next) && old(oe.prev).prev == old(oe.prev.prev)
    ensures e.value == old(e.value) && old(oe.next).value == old(oe.next.value)
    ensures old(oe.prev).value == old(oe.prev.value)
  {
    e.prev, e.next := oe.prev, oe.next;
    e.next.prev := e;
    e.prev.next := e;
    oe.prev := oe;
    oe.next := oe;
  }

  /** A list and an index in it, as they were before a relink. */
  datatype Spot<T(0)> = Spot(list: LinkedList<T>, pos: nat)

  /** Linking `x` in front of index `pos`, with the ghost state updated to
      match and no other link or value changed, keeps the list valid. */
  twostate lemma LinkedKeepsValid<T(0)>(s: Spot<T>, new x: Link<T>)
    requires old(s.list.Valid()) && s.pos <= old(|s.list.nodes|) && x !in old(s.list.Repr)
    requires s.list.nodes == old(s.list.nodes)[..s.pos] + [x] + old(s.list.nodes)[s.pos..]
    requires s.list.Contents == old(s.list.Contents)[..s.pos] + [x.value] + old(s.list.Contents)[s.pos..]
    requires s.list.Repr == old(s.list.Repr) + {x} && s.list.size == old(s.list.size) + 1
    requires x.prev == At(s.list.end, old(s.list.nodes), s.pos - 1)
    requires x.next == At(s.list.end, old(s.list.nodes), s.pos)
    requires At(s.list.end, old(s.list.nodes), s.pos - 1).next == x
    requires At(s.list.end, old(s.list.nodes), s.pos).prev == x
    requires forall o: Link<T> :: old(allocated(o)) && o != x && o != At(s.list.end, old(s.list.nodes), s.pos - 1) ==> o.next == old(o.next)
    requires forall o: Link<T> :: old(allocated(o)) && o != x && o != At(s.list.end, old(s.list.nodes), s.pos) ==> o.prev == old(o.prev)
    requires forall o: Link<T> :: old(allocated(o)) ==> o.value == old(o.value)
    ensures s.list.Valid()
  {
    var l := s.list;
    var site := Site(l.end, old(l.nodes), old(l.Contents), old(l.Repr), s.pos);
    RingAfterInsert(site, x);
    CarriesAfterInsert(site, x);
  }

  /** Unlinking the node at index `pos`, with the ghost state updated to
      match and no other link or value changed, keeps the list valid. */
  twostate lemma UnlinkedKeepsValid<T(0)>(s: Spot<T>)
    requires old(s.list.Valid()) && s.pos < old(|s.list.nodes|)
    requires s.list.nodes == old(s.list.nodes)[..s.pos] + old(s.list.nodes)[s.pos + 1..]
    requires s.list.Contents == old(s.list.Contents)[..s.pos] + old(s.list.Contents)[s.pos + 1..]
    requires s.list.Repr == old(s.list.Repr) - {old(s.list.nodes)[s.pos]}
    requires s.list.size == old(s.list.size) - 1
    requires At(s.list.end, old(s.list.nodes), s.pos - 1).next == At(s.list.end, old(s.list.nodes), s.pos + 1)
    requires At(s.list.end, old(s.list.nodes), s.pos + 1).prev == At(s.list.end, old(s.list.nodes), s.pos - 1)
    requires forall o: Link<T> :: old(allocated(o)) && o != At(s.list.end, old(s.list.nodes), s.pos - 1) ==> o.next == old(o.next)
    requires forall o: Link<T> :: old(allocated(o)) && o != At(s.list.end, old(s.list.nodes), s.pos + 1) ==> o.prev == old(o.prev)
    requires forall o: Link<T> :: old(allocated(o)) ==> o.value == old(o.value)
    ensures s.list.Valid()
  {
    var l := s.list;
    var site := Site(l.end, old(l.nodes), old(l.Contents), old(l.Repr), s.pos);
    RingAfterUnlink(site);
    CarriesAfterUnlink(site);
  }

  /** Relinking the nodes of a nonempty list `o` to the sentinel of `l`,
      with `l`'s ghost state taken over from `o` and no other link or value
      changed, gives a valid `l`. */
  twostate lemma MovedKeepsValid<T(0)>(o: LinkedList<T>, new l: LinkedList<T>)
    requires old(o.Valid()) && old(|o.nodes|) > 0
    requires l !in old(o.Repr) && l.end !in old(o.Repr)
    requires l.nodes == old(o.nodes) && l.Contents == old(o.Contents) && l.size == old(o.size)
    requires l.Repr == {l, l.end} + (old(o.Repr) - {o, o.end})
    requires l.end.next == old(o.nodes)[0] && l.end.prev == old(o.nodes)[|old(o.nodes)| - 1]
    requires old(o.nodes)[0].prev == l.end && old(o.nodes)[|old(o.nodes)| - 1].next == l.end
    requires forall i :: 0 <= i < |old(o.nodes)| - 1 ==> old(o.nodes)[i].next == old(o.nodes[i].next)
    requires forall i :: 0 < i < |old(o.nodes)| ==> old(o.nodes)[i].prev == old(o.nodes[i].prev)
    requires forall i :: 0 <= i < |old(o.nodes)| ==> old(o.nodes)[i].value == old(o.nodes[i].value)
    ensures l.Valid()
  {
    var ns := old(o.nodes);
    forall i | 0 <= i < |ns| - 1
      ensures ns[i].next == ns[i + 1] && ns[i + 1].prev == ns[i]
    {
      assert old(o.nodes[i].next) == ns[i + 1] && old(o.nodes[i + 1].prev) == ns[i];
    }
    forall i | 0 <= i < |ns|
      ensures ns[i] in l.Repr && ns[i].value == l.Contents[i] && ns[i] != l.end
    {
      assert old(o.nodes[i]) in old(o.Repr) && old(o.nodes[i]) != o.end;
      assert old(o.nodes[i].value) == l.Contents[i];
    }
  }

  /** PushFront(5), PushFront(10), PopFront(): one element is left, 5. */
  method PopFrontKeepsSecond() returns (size: nat, front: int)
    ensures size == 1 && front == 5
  {
    var list := new LinkedList<int>();
    list.PushFront(5);
    list.PushFront(10);
    list.PopFront();
    size := list.Size();
    front := list.Front();
  }

  /** PushBack('a'), PushBack('b'), PopBack(): one element is left, 'a'. */
  method PopBackKeepsFirst() returns (size: nat, back: char)
    ensures size == 1 && back == 'a'
  {
    var list := new LinkedList<char>();
    list.PushBack('a');
    list.PushBack('b');
    list.PopBack();
    size := list.Size();
    back := list.Back();
  }

  /** A copy of [0, 1, 2] keeps its three elements when the original then
      loses its front. */
  method CopyIsIndependent() returns (original: nat, copy: nat, front: int, back: int)
    ensures original == 2 && copy == 3 && front == 0 && back == 2
  {
    var list := new LinkedList<int>.FromSeq([0, 1, 2]);
    var list2 := new LinkedList<int>.Copy(list);
    list.PopFront();
    original := list.Size();
    copy := list2.Size();
    front := list2.Front();
    back := list2.Back();
  }

  /** Moving [0, 1, 2] into a new list empties the source. */
  method MoveEmptiesSource() returns (sourceEmpty: bool, size: nat, front: int, back: int)
    ensures sourceEmpty && size == 3 && front == 0 && back == 2
  {
    var list := new LinkedList<int>.FromSeq([0, 1, 2]);
    var list2 := new LinkedList<int>.Move(list);
    sourceEmpty := list.Empty();
    size := list2.Size();
    front := list2.Front();
    back := list2.Back();
  }

  /** A list assigned a copy of [0.0, 0.5] keeps it when the original then
      loses its back. */
  method CopyAssignIsIndependent() returns (original: nat, copy: nat, back: real)
    ensures original == 1 && copy == 2 && back == 0.5
  {
    var list := new LinkedList<real>.FromSeq([0.0, 0.5]);
    var list2 := new LinkedList<real>();
    list2.CopyAssign(list);
    assert list2.Repr !! list.Repr;
    list.PopBack();
    original := list.Size();
    copy := list2.Size();
    back := list2.Back();
  }

  /** Move-assigning ["apple", "banana"] over ["orange"] replaces the
      target's elements and empties the source. */
  method MoveAssignReplaces() returns (sourceEmpty: bool, size: nat, front: string, back: string)
    ensures sourceEmpty && size == 2 && front == "apple" && back == "banana"
  {
    var list := new LinkedList<string>.FromSeq(["apple", "banana"]);
    var list2 := new LinkedList<string>.FromSeq(["orange"]);
    list2.MoveAssign(list);
    sourceEmpty := list.Empty();
    size := list2.Size();
    front := list2.Front();
    back := list2.Back();
  }
}
