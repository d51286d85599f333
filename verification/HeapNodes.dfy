/** The node tree of the "max-heap" index: 511 nodes, each empty or labelled with a
    range of hash values. Which range a node can carry is fixed by its number. */
module HeapNodes {

  const NODE_LIMIT: nat := 511
  const NODE_DEPTH: nat := 9
  const KEY_MAX: nat := 65535

  /** The nodes below this one have children. */
  const INNER: nat := NODE_LIMIT / 2

  type Key = k: nat | k <= KEY_MAX

  type NodeId = i: nat | i < NODE_LIMIT

  datatype Node = Node(min: Key, max: Key)

  const EMPTY_NODE := Node(0, 0)

  type Nodes = s: seq<Node> | |s| == NODE_LIMIT witness seq(NODE_LIMIT, i => EMPTY_NODE)

  // ----- the range that belongs to a node -----

  function Parent(i: nat): nat
    requires i > 0
  {
    (i - 1) / 2
  }

  /** The level of a node, counted from the root. */
  function Level(i: NodeId): nat {
    if i < 1 then 0 else if i < 3 then 1 else if i < 7 then 2 else if i < 15 then 3 else if i < 31 then 4
    else if i < 63 then 5 else if i < 127 then 6 else if i < 255 then 7 else 8
  }

  function Width(i: NodeId): nat {
    [65536, 32768, 16384, 8192, 4096, 2048, 1024, 512, 256][Level(i)]
  }

  /** The middle of a range, as `bucket_split` computes it. */
  function Mean(n: Node): nat
    requires n.min <= n.max
  {
    n.min + (n.max - n.min) / 2
  }

  /** The dyadic range of a node: halve 0..65535 once per level on the way down. */
  function Range(i: NodeId): (n: Node)
    ensures n.min < n.max && n.max - n.min + 1 == Width(i)
  {
    if i == 0 then Node(0, KEY_MAX) else
    var p := Range(Parent(i));
    if i % 2 == 1 then Node(p.min, Mean(p)) else Node(Mean(p) + 1, p.max)
  }

  predicate In(i: NodeId, x: nat) {
    Range(i).min <= x <= Range(i).max
  }

  /** The child of a node whose half contains the hash. */
  function Child(i: NodeId, x: nat): NodeId
    requires i < INNER
  {
    if x <= Mean(Range(i)) then 2 * i + 1 else 2 * i + 2
  }

  /** The children of a node part its range between them. */
  lemma ChildrenPartition(i: NodeId, c: NodeId, x: nat)
    requires c > 0 && Parent(c) == i
    ensures In(c, x) <==> In(i, x) && c == Child(i, x)
  {
  }

  // ----- the shape that every sequence of insertions keeps -----

  predicate Used(ns: Nodes, i: NodeId) {
    ns[i] != EMPTY_NODE
  }

  function Sibling(i: NodeId): NodeId {
    if i == 0 then 0 else if i % 2 == 1 then i + 1 else i - 1
  }

  /** A non-empty node carries its own range, and comes with its parent and sibling. */
  predicate Settled(ns: Nodes, i: NodeId) {
    && (Used(ns, i) ==> ns[i] == Range(i) && (i == 0 || Used(ns, Parent(i))))
    && Used(ns, i) == Used(ns, Sibling(i))
  }

  predicate Shape(ns: Nodes) {
    Used(ns, 0) && forall i: NodeId :: Settled(ns, i)
  }

  /** A node's two children after `bucket_split`. */
  function Halved(ns: Nodes, b: NodeId): Nodes
    requires b < INNER
  {
    ns[2 * b + 1 := Range(2 * b + 1)][2 * b + 2 := Range(2 * b + 2)]
  }

  lemma HalvedAt(ns: Nodes, b: NodeId, i: NodeId)
    requires b < INNER
    ensures Halved(ns, b)[i] == if i > 0 && Parent(i) == b then Range(i) else ns[i]
    ensures Used(Halved(ns, b), i) <==> Used(ns, i) || (i > 0 && Parent(i) == b)
  {
    var r := Range(i);
  }

  lemma HalvedShape(ns: Nodes, b: NodeId)
    requires Shape(ns) && b < INNER && Used(ns, b)
    ensures Shape(Halved(ns, b))
  {
    forall i: NodeId ensures Settled(Halved(ns, b), i) {
      assert Settled(ns, i);
      HalvedAt(ns, b, i);
      HalvedAt(ns, b, Sibling(i));
      if i > 0 {
        HalvedAt(ns, b, Parent(i));
      }
    }
    HalvedAt(ns, b, 0);
  }

  // ----- the nodes above the last level that hold a hash -----

  /** The non-empty inner nodes on the way down from `c` whose range contains the hash. */
  function Path(ns: Nodes, c: NodeId, x: Key): seq<NodeId>
    decreases NODE_LIMIT - c
  {
    if !Used(ns, c) || c >= INNER then [] else [c] + Path(ns, Child(c, x), x)
  }

  /** `i` lies below `c` or is `c`. */
  predicate Below(c: NodeId, i: NodeId) {
    i == c || (i > c && Below(c, Parent(i)))
  }

  lemma {:induction false} BelowIn(c: NodeId, i: NodeId, x: Key)
    requires Below(c, i) && In(i, x)
    ensures In(c, x) && (i != c && c < INNER ==> Below(Child(c, x), i))
    decreases i
  {
    if i != c {
      ChildrenPartition(Parent(i), i, x);
      BelowIn(c, Parent(i), x);
    }
  }

  lemma {:induction false} UsedAbove(ns: Nodes, c: NodeId, i: NodeId)
    requires Shape(ns) && Below(c, i) && Used(ns, i)
    ensures Used(ns, c)
    decreases i
  {
    if i != c {
      assert Settled(ns, i);
      UsedAbove(ns, c, Parent(i));
    }
  }

  lemma {:induction false} AllBelowRoot(i: NodeId)
    ensures Below(0, i)
  {
    if i > 0 {
      AllBelowRoot(Parent(i));
    }
  }

  lemma {:induction false} PathFrom(ns: Nodes, c: NodeId, x: Key, i: NodeId)
    requires Shape(ns) && In(c, x)
    ensures i in Path(ns, c, x) <==> Below(c, i) && i < INNER && Used(ns, i) && In(i, x)
    decreases NODE_LIMIT - c
  {
    if Below(c, i) && Used(ns, i) {
      UsedAbove(ns, c, i);
      if In(i, x) {
        BelowIn(c, i, x);
      }
    }
    if Used(ns, c) && c < INNER {
      ChildrenPartition(c, Child(c, x), x);
      PathFrom(ns, Child(c, x), x, i);
      assert Below(c, Child(c, x));
      BelowTrans(c, Child(c, x), i);
    }
  }

  lemma {:induction false} BelowTrans(a: NodeId, b: NodeId, i: NodeId)
    requires Below(a, b)
    ensures Below(b, i) ==> Below(a, i)
    decreases i
  {
    if i > b {
      BelowTrans(a, b, Parent(i));
    }
  }

  /** The nodes visited for a hash are precisely the non-empty inner nodes whose label
      contains it. */
  lemma PathExact(ns: Nodes, x: Key, i: NodeId)
    requires Shape(ns)
    ensures i in Path(ns, 0, x) <==> i < INNER && Used(ns, i) && ns[i].min <= x <= ns[i].max
  {
    assert Settled(ns, i);
    AllBelowRoot(i);
    PathFrom(ns, 0, x, i);
  }

  /** They form one chain from the root, one node per level, and all levels but the
      last one fit into NODE_DEPTH. */
  lemma {:induction false} PathIsChain(ns: Nodes, c: NodeId, x: Key)
    requires In(c, x)
    ensures var p := Path(ns, c, x);
            && (p != [] ==> p[0] == c)
            && (forall k :: 0 <= k < |p| - 1 ==> p[k] < INNER && p[k + 1] == Child(p[k], x))
            && (forall k :: 0 <= k < |p| ==> Level(p[k]) == Level(c) + k && In(p[k], x))
            && Level(c) + |p| <= NODE_DEPTH - 1
    decreases NODE_LIMIT - c
  {
    if Used(ns, c) && c < INNER {
      ChildrenPartition(c, Child(c, x), x);
      PathIsChain(ns, Child(c, x), x);
    }
  }
}
