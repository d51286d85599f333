/** The file of heap nodes: walking down it, and adding nodes to it. */
module HeapFile {
  import opened HeapNodes

  /** Everything that the walk of `heap_insert` to the place of node `t` passes, labelled
      with its own range: the nodes above `t`, and elder siblings. */
  ghost predicate Walkable(ns: Nodes, t: NodeId) {
    && (forall a: NodeId :: Below(a, t) && a != t ==> Used(ns, a) && ns[a] == Range(a))
    && (forall a: NodeId :: Below(a, t) && Elder(a) ==> Used(ns, a - 1) && ns[a - 1] == Range(a - 1))
  }

  predicate Elder(a: NodeId) {
    a > 0 && a % 2 == 0
  }

  /** At each node that the walk meets, the range fits if and only if the node is above
      `t`; the walk then goes on to a child above `t` or its elder sibling. */
  lemma WalkStep(ns: Nodes, t: NodeId, a: NodeId, i: NodeId)
    requires Walkable(ns, t) && Below(a, t) && (i == a || (Elder(a) && i == a - 1))
    requires i == t ==> ns[t] == Range(t)
    ensures ns[i].min <= Range(t).min && Range(t).max <= ns[i].max <==> i == a
    ensures a != t ==> a < INNER && Below(Child(a, Range(t).min), t)
  {
    BelowIn(a, t, Range(t).min);
    BelowIn(a, t, Range(t).max);
    if i != a {
      ChildrenPartition(Parent(a), a, Range(t).min);
      ChildrenPartition(Parent(a), i, Range(t).min);
    }
  }

  lemma EitherChild(a: NodeId, x: nat)
    requires a < INNER
    ensures Child(a, x) == 2 * a + 1 || (Child(a, x) - 1 == 2 * a + 1 && Elder(Child(a, x)))
  {
  }

  lemma YoungerOnly(c: NodeId, x: nat)
    requires Elder(c) && In(c, x)
    ensures !In(c - 1, x) && Sibling(c) == c - 1
  {
    ChildrenPartition(Parent(c), c, x);
    ChildrenPartition(Parent(c), c - 1, x);
  }

  lemma HalfRanges(b: NodeId)
    requires b < INNER
    ensures Range(2 * b + 1) == Node(Range(b).min, Mean(Range(b)))
    ensures Range(2 * b + 2) == Node(Mean(Range(b)) + 1, Range(b).max)
  {
    assert Parent(2 * b + 1) == b && Parent(2 * b + 2) == b;
  }

  lemma WalkableTo(ns: Nodes, b: NodeId)
    requires Shape(ns) && Used(ns, b)
    ensures Walkable(ns, b) && ns[b] == Range(b)
  {
    assert Settled(ns, b);
    forall a: NodeId | Below(a, b)
      ensures Used(ns, a) && ns[a] == Range(a) && (Elder(a) ==> Used(ns, a - 1) && ns[a - 1] == Range(a - 1))
    {
      UsedAbove(ns, a, b);
      assert Settled(ns, a) && Settled(ns, Sibling(a));
    }
  }

  lemma WalkableChild(ns: Nodes, b: NodeId, c: NodeId)
    requires Walkable(ns, b) && Used(ns, b) && ns[b] == Range(b) && c > 0 && Parent(c) == b
    requires Elder(c) ==> Used(ns, c - 1) && ns[c - 1] == Range(c - 1)
    ensures Walkable(ns, c)
  {
    assert forall a: NodeId :: Below(a, c) ==> a == c || Below(a, b);
  }

  lemma WalkableElsewhere(ns: Nodes, b: NodeId, c: NodeId, n: Node)
    requires Walkable(ns, b) && c > b
    ensures Walkable(ns[c := n], b)
  {
    forall a: NodeId | Below(a, b) ensures a <= b {
    }
  }

  /** What the two insertions of a split find. */
  lemma BeforeSmall(ns: Nodes, b: NodeId)
    requires Shape(ns) && b < INNER && Used(ns, b)
    ensures ns[b] == Range(b) && Walkable(ns, 2 * b + 1) && (Used(ns, 2 * b + 1) ==> ns[2 * b + 1] == Range(2 * b + 1))
  {
    assert Settled(ns, 2 * b + 1);
    WalkableTo(ns, b);
    WalkableChild(ns, b, 2 * b + 1);
  }

  lemma BeforeLarge(ns: Nodes, b: NodeId)
    requires Shape(ns) && b < INNER && Used(ns, b) && !Used(ns, 2 * b + 1)
    ensures var half := ns[2 * b + 1 := Range(2 * b + 1)]; Walkable(half, 2 * b + 2) && !Used(half, 2 * b + 2)
  {
    ghost var one: NodeId := 2 * b + 1;
    assert Settled(ns, one);
    WalkableTo(ns, b);
    WalkableElsewhere(ns, b, one, Range(one));
    WalkableChild(ns[one := Range(one)], b, 2 * b + 2);
  }

  /** What a split finds, and where its halves belong. */
  lemma BeforeHalves(ns: Nodes, b: NodeId, mean: nat)
    requires Shape(ns) && b < INNER && Used(ns, b) && mean == ns[b].min + (ns[b].max - ns[b].min) / 2
    ensures HalvesFit(ns, ns[b], mean, 2 * b + 1, 2 * b + 2)
  {
    HalfRanges(b);
    BeforeSmall(ns, b);
    if !Used(ns, 2 * b + 1) {
      BeforeLarge(ns, b);
    }
  }

  /** The halves of a range belong to the nodes `one` and `two`, which can be inserted in turn. */
  ghost predicate HalvesFit(ns: Nodes, n: Node, mean: nat, one: NodeId, two: NodeId) {
    && n.min <= mean < n.max && Node(n.min, mean) == Range(one) && Node(mean + 1, n.max) == Range(two)
    && Walkable(ns, one) && (Used(ns, one) ==> ns[one] == Range(one))
    && (!Used(ns, one) ==> var half := ns[one := Range(one)]; Walkable(half, two) && !Used(half, two))
  }

  class NodeFile {
    const nodes: array<Node>

    ghost predicate Valid() {
      nodes.Length == NODE_LIMIT
    }

    ghost function Contents(): Nodes
      requires Valid()
      reads nodes
    {
      nodes[..]
    }

    constructor ()
      ensures Valid() && fresh(nodes) && forall i: NodeId :: Contents()[i] == EMPTY_NODE
    {
      nodes := new Node[NODE_LIMIT](i => EMPTY_NODE);
    }

    /** `heap_insert`, for the range that belongs to node `t`. The walk, which goes on to
        the next node wherever the range does not fit, ends at that node. */
    method Insert(min: Key, max: Key, ghost t: NodeId) returns (r: int)
      requires Valid() && Node(min, max) == Range(t) && Walkable(Contents(), t)
      requires Used(Contents(), t) ==> Contents()[t] == Range(t) && t >= INNER
      modifies nodes
      ensures r == if old(Used(Contents(), t)) then -1 else t
      ensures Contents() == old(Contents())[t := Range(t)]
    {
      if min > max {
        return -1;
      }
      var i := 0;
      ghost var a: NodeId := 0;
      AllBelowRoot(t);
      while i < NODE_LIMIT
        invariant Contents() == old(Contents())
        invariant i < NODE_LIMIT ==> Below(a, t) && (i == a || (Elder(a) && i == a - 1))
        invariant i >= NODE_LIMIT ==> Used(Contents(), t)
        decreases NODE_LIMIT - i
      {
        var node := nodes[i];
        if node == EMPTY_NODE {
          nodes[i] := Node(min, max);
          return i;
        }
        WalkStep(Contents(), t, a, i);
        if node.min <= min && max <= node.max {
          i := 2 * i + 1;
          if a != t {
            EitherChild(a, min);
            a := Child(a, min);
          }
        } else {
          i := i + 1;
        }
      }
      return -1;
    }

    /** `heap_find`, from node `start`, where `c` is that node or its younger sibling and
        contains the hash. The nodes of the last level are never found. */
    method Find(x: Key, start: nat, ghost c: NodeId) returns (r: int, next: nat)
      requires Valid() && Shape(Contents()) && In(c, x) && (start == c || (Elder(c) && start == c - 1))
      ensures if Used(Contents(), c) && c < INNER then r == c && next == 2 * c + 1 else r == -1 && next == start
    {
      next := start;
      var i := start;
      while i < NODE_LIMIT
        invariant i == c || (Elder(c) && i == start == c - 1)
        decreases NODE_LIMIT - i
      {
        assert Settled(Contents(), i);
        if i != c {
          assert Settled(Contents(), c);
          YoungerOnly(c, x);
        }
        var node := nodes[i];
        if node == EMPTY_NODE {
          return -1, next;
        }
        if node.min <= x <= node.max {
          var firstChild := 2 * i + 1;
          if firstChild >= NODE_LIMIT {
            return -1, next;
          }
          return i, firstChild;
        }
        i := i + 1;
      }
      return -1, next;
    }

    /** The two insertions of a split. */
    method InsertHalves(n: Node, mean: nat, ghost one: NodeId, ghost two: NodeId) returns (ok: bool)
      requires Valid() && HalvesFit(Contents(), n, mean, one, two) && (Used(Contents(), one) ==> one >= INNER)
      modifies nodes
      ensures ok == !old(Used(Contents(), one))
      ensures Contents() == if ok then old(Contents())[one := Range(one)][two := Range(two)] else old(Contents())
    {
      ghost var was := Contents();
      var small := Insert(n.min, mean, one);
      if small < 0 {
        assert was[one := Range(one)] == was;
        return false;
      }
      assert Contents() == was[one := Range(one)];
      var large := Insert(mean + 1, n.max, two);
      return large >= 0;
    }

    /** `bucket_split`. Fails only below the last inner level, or when it is done again. */
    method Split(b: NodeId) returns (ok: bool)
      requires Valid() && Shape(Contents()) && b < INNER && Used(Contents(), b)
      requires Used(Contents(), 2 * b + 1) ==> 2 * b + 1 >= INNER
      modifies nodes
      ensures ok == !old(Used(Contents(), 2 * b + 1))
      ensures Contents() == if ok then Halved(old(Contents()), b) else old(Contents())
    {
      var node := nodes[b];
      var mean := node.min + (node.max - node.min) / 2;
      BeforeHalves(Contents(), b, mean);
      ok := InsertHalves(node, mean, 2 * b + 1, 2 * b + 2);
    }
  }
}
