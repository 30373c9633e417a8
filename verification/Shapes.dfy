/**
 The nodes of algorithm/tree.hpp and the shapes they form.

 A `Shape` says which node stands where. `Down` ties the child pointers of the heap to the
 shape, `Up` ties the parent pointers to it, and `View` forgets the nodes and keeps the keys.
 A `Path` is a shape with a hole in it.
 */
module Shapes {
  import opened KeyTrees

  class Node {
    const m_data: int
    var m_parent: Node?
    var m_left: Node?
    var m_right: Node?

    constructor (t: int)
      ensures m_data == t && m_parent == null && m_left == null && m_right == null
    {
      m_data, m_parent, m_left, m_right := t, null, null, null;
    }
  }

  // ---------- Shapes ----------

  datatype Shape = Empty | Branch(left: Shape, node: Node, right: Shape)

  function View(s: Shape): KeyTree {
    match s
    case Empty => Nil
    case Branch(l, n, r) => Fork(View(l), n.m_data, View(r))
  }

  function Nodes(s: Shape): set<Node> {
    match s
    case Empty => {}
    case Branch(l, n, r) => Nodes(l) + {n} + Nodes(r)
  }

  function TopOf(s: Shape): Node? {
    if s.Empty? then null else s.node
  }

  ghost predicate Distinct(s: Shape) {
    match s
    case Empty => true
    case Branch(l, n, r) =>
      Distinct(l) && Distinct(r) && n !in Nodes(l) + Nodes(r) && Nodes(l) !! Nodes(r)
  }

  /** The child pointers, starting at `at`, are those of the shape. */
  ghost predicate Down(s: Shape, at: Node?)
    reads Nodes(s)`m_left, Nodes(s)`m_right
  {
    match s
    case Empty => at == null
    case Branch(l, n, r) => at == n && Down(l, n.m_left) && Down(r, n.m_right)
  }

  /** A parent pointer is exact, or for a stale node it points at a node since deleted. */
  ghost predicate PointsUp(n: Node, parent: Node?, stale: set<Node>, freed: set<Node>)
    reads n`m_parent
  {
    if n in stale then n.m_parent in freed else n.m_parent == parent
  }

  /** The parent pointers are the inverse of the shape's child links, below `parent`, but for the stale nodes. */
  ghost predicate Up(s: Shape, parent: Node?, stale: set<Node>, freed: set<Node>)
    reads Nodes(s)`m_parent
  {
    match s
    case Empty => true
    case Branch(l, n, r) =>
      PointsUp(n, parent, stale, freed) && Up(l, n, stale, freed) && Up(r, n, stale, freed)
  }

  /** Links stay what they are when other nodes go stale or heal, and when more nodes are deleted. */
  lemma {:induction false} UpAgrees(s: Shape, parent: Node?, stale: set<Node>, stale': set<Node>,
                                    freed: set<Node>, freed': set<Node>)
    requires Up(s, parent, stale, freed) && freed <= freed'
    requires forall n <- Nodes(s) :: n in stale <==> n in stale'
    ensures Up(s, parent, stale', freed')
  {
    match s
    case Empty =>
    case Branch(l, n, r) =>
      UpAgrees(l, n, stale, stale', freed, freed');
      UpAgrees(r, n, stale, stale', freed, freed');
  }

  /** The heap fixes the shape: there is no second reading of the same child pointers. */
  lemma {:induction false} ShapeIsUnique(s: Shape, s': Shape, at: Node?)
    requires Down(s, at) && Down(s', at)
    ensures s == s'
  {
    match s
    case Empty =>
    case Branch(l, n, r) =>
      ShapeIsUnique(l, s'.left, n.m_left);
      ShapeIsUnique(r, s'.right, n.m_right);
  }

  lemma {:induction false} NodesHoldKeys(s: Shape, n: Node)
    requires n in Nodes(s)
    ensures n.m_data in Keys(View(s))
  {
    var Branch(l, m, r) := s;
    if n in Nodes(l) { NodesHoldKeys(l, n); }
    if n in Nodes(r) { NodesHoldKeys(r, n); }
  }

  /** Search order alone keeps subtrees apart, since a node's key never changes. */
  lemma {:induction false} OrderKeepsApart(s: Shape)
    requires Ordered(View(s))
    ensures Distinct(s)
  {
    match s
    case Empty =>
    case Branch(l, n, r) =>
      OrderKeepsApart(l);
      OrderKeepsApart(r);
      forall m | m in Nodes(l) + Nodes(r)
        ensures m != n && (m in Nodes(l) ==> m !in Nodes(r))
      {
        if m in Nodes(l) { NodesHoldKeys(l, m); }
        if m in Nodes(r) { NodesHoldKeys(r, m); }
      }
  }

  /** What holds below the top of a shape still holds when the top alone is hung elsewhere. */
  lemma Rehangs(s: Shape, parent: Node?, stale: set<Node>, stale': set<Node>, freed: set<Node>, freed': set<Node>)
    requires Up(s, parent, stale, freed) && Distinct(s) && freed <= freed'
    requires forall n <- Nodes(s) :: n !in TopNode(s) ==> (n in stale <==> n in stale')
    ensures s.Branch? ==> Up(s.left, s.node, stale', freed') && Up(s.right, s.node, stale', freed')
  {
    if s.Branch? {
      UpAgrees(s.left, s.node, stale, stale', freed, freed');
      UpAgrees(s.right, s.node, stale, stale', freed, freed');
    }
  }

  /** When `parent` is deleted and nothing else changes, what hung below it goes stale. */
  lemma GoesStale(s: Shape, parent: Node, above: Node?, stale: set<Node>, freed: set<Node>)
    requires Up(s, parent, stale, freed) && Distinct(s)
    ensures Up(s, above, stale + TopNode(s), freed + {parent})
  {
    Rehangs(s, parent, stale, stale + TopNode(s), freed, freed + {parent});
  }

  // ---------- Paths: a shape with a hole in it ----------

  datatype Path = Top | LeftOf(up: Path, node: Node, right: Shape) | RightOf(up: Path, left: Shape, node: Node)

  function Plug(p: Path, s: Shape): Shape
    decreases p
  {
    match p
    case Top => s
    case LeftOf(up, n, r) => Plug(up, Branch(s, n, r))
    case RightOf(up, l, n) => Plug(up, Branch(l, n, s))
  }

  function PathNodes(p: Path): set<Node> {
    match p
    case Top => {}
    case LeftOf(up, n, r) => PathNodes(up) + {n} + Nodes(r)
    case RightOf(up, l, n) => PathNodes(up) + {n} + Nodes(l)
  }

  ghost predicate PathDistinct(p: Path) {
    match p
    case Top => true
    case LeftOf(up, n, s) =>
      PathDistinct(up) && Distinct(s) && n !in PathNodes(up) + Nodes(s) && Nodes(s) !! PathNodes(up)
    case RightOf(up, s, n) =>
      PathDistinct(up) && Distinct(s) && n !in PathNodes(up) + Nodes(s) && Nodes(s) !! PathNodes(up)
  }

  /** How many nodes lie above the hole. */
  function Length(p: Path): nat {
    match p
    case Top => 0
    case LeftOf(up, _, _) => 1 + Length(up)
    case RightOf(up, _, _) => 1 + Length(up)
  }

  /** The node the hole hangs from, or `above` when the hole is at the very top. */
  function Holder(p: Path, above: Node?): Node? {
    if p.Top? then above else p.node
  }

  /** `Down` for everything around the hole: from `root` the child pointers lead to `at`. */
  ghost predicate PathDown(p: Path, root: Node?, at: Node?)
    reads PathNodes(p)`m_left, PathNodes(p)`m_right
  {
    match p
    case Top => root == at
    case LeftOf(up, n, r) => n.m_left == at && Down(r, n.m_right) && PathDown(up, root, n)
    case RightOf(up, l, n) => n.m_right == at && Down(l, n.m_left) && PathDown(up, root, n)
  }

  /** `Up` for everything around the hole. */
  ghost predicate PathUp(p: Path, above: Node?, stale: set<Node>, freed: set<Node>)
    reads PathNodes(p)`m_parent
  {
    match p
    case Top => true
    case LeftOf(up, n, r) =>
      PointsUp(n, Holder(up, above), stale, freed) && Up(r, n, stale, freed) && PathUp(up, above, stale, freed)
    case RightOf(up, l, n) =>
      PointsUp(n, Holder(up, above), stale, freed) && Up(l, n, stale, freed) && PathUp(up, above, stale, freed)
  }

  lemma {:induction false} PathUpAgrees(p: Path, above: Node?, stale: set<Node>, stale': set<Node>,
                                        freed: set<Node>, freed': set<Node>)
    requires PathUp(p, above, stale, freed) && freed <= freed'
    requires forall n <- PathNodes(p) :: n in stale <==> n in stale'
    ensures PathUp(p, above, stale', freed')
  {
    match p
    case Top =>
    case LeftOf(up, n, r) =>
      UpAgrees(r, n, stale, stale', freed, freed');
      PathUpAgrees(up, above, stale, stale', freed, freed');
    case RightOf(up, l, n) =>
      UpAgrees(l, n, stale, stale', freed, freed');
      PathUpAgrees(up, above, stale, stale', freed, freed');
  }

  /** The turns of the path are those a search for `t` takes. */
  ghost predicate Toward(p: Path, t: int) {
    match p
    case Top => true
    case LeftOf(up, n, _) => t < n.m_data && Toward(up, t)
    case RightOf(up, _, n) => t > n.m_data && Toward(up, t)
  }

  ghost predicate TurnsLeftOnly(p: Path) {
    p.Top? || (p.LeftOf? && TurnsLeftOnly(p.up))
  }

  lemma {:induction false} PlugNodes(p: Path, s: Shape)
    ensures Nodes(Plug(p, s)) == PathNodes(p) + Nodes(s)
    ensures s.Branch? ==> Plug(p, s).Branch?
    ensures Distinct(Plug(p, s)) <==> PathDistinct(p) && Distinct(s) && PathNodes(p) !! Nodes(s)
    decreases p
  {
    match p
    case Top =>
    case LeftOf(up, n, r) => PlugNodes(up, Branch(s, n, r));
    case RightOf(up, l, n) => PlugNodes(up, Branch(l, n, s));
  }

  lemma {:induction false} PlugDown(p: Path, s: Shape, root: Node?)
    ensures Down(Plug(p, s), root) <==> PathDown(p, root, TopOf(s)) && Down(s, TopOf(s))
    decreases p
  {
    match p
    case Top =>
    case LeftOf(up, n, r) => PlugDown(up, Branch(s, n, r), root);
    case RightOf(up, l, n) => PlugDown(up, Branch(l, n, s), root);
  }

  lemma {:induction false} PlugUp(p: Path, s: Shape, above: Node?, stale: set<Node>, freed: set<Node>)
    ensures Up(Plug(p, s), above, stale, freed) <==>
            PathUp(p, above, stale, freed) && Up(s, Holder(p, above), stale, freed)
    decreases p
  {
    match p
    case Top =>
    case LeftOf(up, n, r) => PlugUp(up, Branch(s, n, r), above, stale, freed);
    case RightOf(up, l, n) => PlugUp(up, Branch(l, n, s), above, stale, freed);
  }

  lemma PlugLinks(p: Path, s: Shape, root: Node?, above: Node?, stale: set<Node>, freed: set<Node>)
    ensures Down(Plug(p, s), root) <==> PathDown(p, root, TopOf(s)) && Down(s, TopOf(s))
    ensures Up(Plug(p, s), above, stale, freed) <==>
            PathUp(p, above, stale, freed) && Up(s, Holder(p, above), stale, freed)
  {
    PlugDown(p, s, root);
    PlugUp(p, s, above, stale, freed);
  }

  /** Changing what hangs in the hole is inserting or removing in the whole tree. */
  lemma {:induction false} PlugView(p: Path, s: Shape, s': Shape, t: int)
    requires Toward(p, t)
    ensures View(s') == Inserted(View(s), t) ==> View(Plug(p, s')) == Inserted(View(Plug(p, s)), t)
    ensures View(s') == Removed(View(s), t) ==> View(Plug(p, s')) == Removed(View(Plug(p, s)), t)
    ensures Find(View(Plug(p, s)), t) == Find(View(s), t)
    ensures !p.Top? && s.Branch? ==> View(Plug(p, s)).Fork? && View(Plug(p, s)).key != t
    decreases p
  {
    match p
    case Top =>
    case LeftOf(up, n, r) => PlugView(up, Branch(s, n, r), Branch(s', n, r), t);
    case RightOf(up, l, n) => PlugView(up, Branch(l, n, s), Branch(l, n, s'), t);
  }

  /** No walk is longer than the tree is high. */
  lemma {:induction false} LengthWithinHeight(p: Path, s: Shape)
    ensures Length(p) + Height(View(s)) <= Height(View(Plug(p, s)))
    decreases p
  {
    match p
    case Top =>
    case LeftOf(up, n, r) => LengthWithinHeight(up, Branch(s, n, r));
    case RightOf(up, l, n) => LengthWithinHeight(up, Branch(l, n, s));
  }

  /** And some path to a node is as long, the node itself counted. */
  lemma HeightIsReached(s: Shape) returns (p: Path, sub: Shape)
    requires s.Branch?
    ensures s == Plug(p, sub) && sub.Branch? && Length(p) + 1 == Height(View(s))
  {
    p, sub := DownTo(Top, s);
  }

  lemma {:induction false} DownTo(p: Path, s: Shape) returns (p': Path, sub: Shape)
    requires s.Branch?
    ensures Plug(p, s) == Plug(p', sub) && sub.Branch? && Length(p') + 1 == Length(p) + Height(View(s))
    decreases s
  {
    var Branch(l, n, r) := s;
    if l.Branch? && Height(View(l)) >= Height(View(r)) {
      p', sub := DownTo(LeftOf(p, n, r), l);
    } else if r.Branch? {
      p', sub := DownTo(RightOf(p, l, n), r);
    } else {
      p', sub := p, s;
    }
  }

  /** The last node of a left spine holds the least key, and cutting it out leaves the rest. */
  lemma {:induction false} SpineEndIsMin(p: Path, s: Shape, s': Shape)
    requires TurnsLeftOnly(p) && s.Branch? && View(s') == WithoutMin(View(s))
    ensures Plug(p, s).Branch?
    ensures MinKey(View(Plug(p, s))) == MinKey(View(s))
    ensures View(Plug(p, s')) == WithoutMin(View(Plug(p, s)))
    ensures BesideMin(View(Plug(p, s))) == BesideMin(View(s))
    decreases p
  {
    match p
    case Top =>
    case LeftOf(up, n, r) => SpineEndIsMin(up, Branch(s, n, r), Branch(s', n, r));
  }

  // ---------- Sets of nodes and of keys ----------

  function TopNode(s: Shape): set<Node> {
    if s.Empty? then {} else {s.node}
  }

  function KeysOf(nodes: set<Node>): set<int> {
    set n <- nodes :: n.m_data
  }

  ghost predicate OneNodePerKey(nodes: set<Node>) {
    forall n <- nodes, m <- nodes :: n.m_data == m.m_data ==> n == m
  }

  lemma {:induction false} OrderSeparatesKeys(s: Shape)
    requires Ordered(View(s))
    ensures OneNodePerKey(Nodes(s))
  {
    match s
    case Empty =>
    case Branch(l, n, r) =>
      OrderSeparatesKeys(l);
      OrderSeparatesKeys(r);
      forall m | m in Nodes(l)
        ensures m.m_data < n.m_data
      {
        NodesHoldKeys(l, m);
      }
      forall m | m in Nodes(r)
        ensures n.m_data < m.m_data
      {
        NodesHoldKeys(r, m);
      }
  }

  /** Where keys name nodes, sets of nodes may be read as sets of keys. */
  lemma KeysOfMinus(all: set<Node>, a: set<Node>, b: set<Node>)
    requires OneNodePerKey(all) && a <= all && b <= all
    ensures KeysOf(a - b) == KeysOf(a) - KeysOf(b)
    ensures KeysOf(a + b) == KeysOf(a) + KeysOf(b)
    ensures forall n <- all :: n in a <==> n.m_data in KeysOf(a)
  {
    forall n | n in all && n.m_data in KeysOf(a)
      ensures n in a
    {
    }
    forall x | x in KeysOf(a) - KeysOf(b)
      ensures x in KeysOf(a - b)
    {
      var n :| n in a && n.m_data == x;
      assert n in a - b;
    }
    forall x | x in KeysOf(a - b)
      ensures x in KeysOf(a) - KeysOf(b)
    {
      var n :| n in a - b && n.m_data == x;
    }
  }
}
