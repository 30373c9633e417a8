/**
 algorithm/tree.hpp: the binary search tree, with every operation specified on a `KeyTree`.

 `freed` is what `delete` has released, and `stale` the nodes whose parent pointer leads there:
 the code as it stands makes such nodes, and goes wrong exactly when it follows one of them.
 */
module BinaryTrees {
  import opened KeyTrees
  import opened Shapes

  /**
   What a call of `del` comes to: it returns, it dereferences a null pointer at line 137, or it
   follows a parent pointer to a node that has been deleted.
   */
  datatype Deletion = Returned(found: bool) | NullDereference | StaleParent

  /** What taking out the top of `at` comes to: line 120 or 128 comes before 137, and that before 140. */
  function Taking(at: KeyTree, stale: set<int>, relink: bool): Deletion
    requires at.Fork?
  {
    if HasBoth(at) && MinKey(at.right) in stale then StaleParent
    else if HasBoth(at) && IsLeaf(at.right) && !relink then NullDereference
    else if at.key in stale then StaleParent
    else Returned(true)
  }

  /** What `del` needs to know of the keys: membership, size, and what taking out the node comes to. */
  lemma DeletionFacts(k: KeyTree, stale: set<int>, t: int, relink: bool)
    requires Ordered(k)
    ensures Ordered(Removed(k, t))
    ensures Find(k, t).Nil? ==>
              t !in Keys(k) && Removed(k, t) == k && StaleAfter(k, stale, t, relink) == stale &&
              !ReadsStale(k, stale, t) && !SuccessorIsBareChild(k, t)
    ensures Find(k, t).Fork? ==>
              && t in Keys(k) && Find(k, t).key == t && Size(Removed(k, t)) == Size(k) - 1
              && StaleAfter(k, stale, t, relink) == StaleAround(Find(k, t), stale, relink || k.key == t)
              && var outcome := Taking(Find(k, t), stale, relink);
                 && (outcome.Returned? <==> !ReadsStale(k, stale, t) && (relink || !SuccessorIsBareChild(k, t)))
                 && (outcome.NullDereference? <==>
                     !relink && SuccessorIsBareChild(k, t) && Find(k, t).right.key !in stale)
                 && (outcome.StaleParent? ==> ReadsStale(k, stale, t))
                 && (outcome.Returned? ==> outcome.found)
  {
    FindIsMembership(k, t);
    RemovedSize(k, t);
  }

  /** Which nodes have a stale parent once an only child has moved up. */
  function Moved(stale: set<Node>, child: Shape, exact: bool): set<Node> {
    if exact then stale - TopNode(child) else stale + TopNode(child)
  }

  class BinaryTree {
    var m_root: Node?
    var m_size: nat
    var freed: set<Node>
    ghost var shape: Shape
    ghost var stale: set<Node>

    /** Child pointers, order and size are right; says nothing of parent pointers. */
    ghost predicate Shaped()
      reads this, Nodes(shape)
    {
      && Ordered(View(shape))
      && m_size == Size(View(shape))
      && (shape.Branch? ==> Down(shape, m_root))
    }

    /** Besides, no node is deleted, and every parent pointer is exact but for the stale nodes. */
    ghost predicate Valid()
      reads this, Nodes(shape)
    {
      Shaped() && stale <= Nodes(shape) && freed !! Nodes(shape) && Up(shape, null, stale, freed)
    }

    /** The tree is `s` in the hole of `p`, with all links. */
    ghost predicate Linked(p: Path, s: Shape, stale: set<Node>)
      reads `m_root, `freed, PathNodes(p), Nodes(s)
    {
      && PathDown(p, m_root, TopOf(s)) && Down(s, TopOf(s))
      && PathUp(p, null, stale, freed) && Up(s, Holder(p, null), stale, freed)
    }

    /** `m_root` has no initialiser (line 221), so it starts out as any pointer at all. */
    constructor (uninitialised: Node?)
      ensures Valid() && shape == Empty && stale == {} && m_root == uninitialised
    {
      m_root, m_size, freed := uninitialised, 0, {};
      shape, stale := Empty, {};
    }

    /**
     The walk shared by `add`, `del` and `search`: from the root toward `t`, until the node
     holding `t` or the node that lacks the child the walk would take next. `counter` is the
     number `search` prints.
     */
    method Walk(t: int) returns (current_node: Node, counter: nat, ghost path: Path, ghost sub: Shape)
      requires Shaped() && m_size != 0
      ensures shape == Plug(path, sub) && sub.Branch? && sub.node == current_node && Toward(path, t)
      ensures PathDown(path, m_root, current_node) && Down(sub, current_node)
      ensures PathDistinct(path) && Distinct(sub) && PathNodes(path) !! Nodes(sub)
      ensures t > current_node.m_data ==> sub.right.Empty?
      ensures t < current_node.m_data ==> sub.left.Empty?
      ensures counter == Length(path) + 1 == Visits(View(shape), t)
    {
      OrderKeepsApart(shape);
      path, sub := Top, shape;
      current_node, counter := m_root, 1;
      while true
        invariant shape == Plug(path, sub) && sub.Branch? && current_node == sub.node
        invariant Toward(path, t) && PathDown(path, m_root, current_node) && Down(sub, current_node)
        invariant PathDistinct(path) && Distinct(sub) && PathNodes(path) !! Nodes(sub)
        invariant counter == Length(path) + 1
        invariant Length(path) + Visits(View(sub), t) == Visits(View(shape), t)
        decreases sub
      {
        if t > current_node.m_data {
          if current_node.m_right == null {
            return;
          }
          path, sub := RightOf(path, sub.left, sub.node), sub.right;
          current_node := current_node.m_right;
        } else if t < current_node.m_data {
          if current_node.m_left == null {
            return;
          }
          path, sub := LeftOf(path, sub.node, sub.right), sub.left;
          current_node := current_node.m_left;
        } else {
          return;
        }
        counter := counter + 1;
      }
    }

    /** What is known of the parts of a tree cut at a node. */
    lemma Unplugged(p: Path, s: Shape)
      requires Valid() && shape == Plug(p, s) && s.Branch? && Distinct(shape)
      ensures Linked(p, s, stale) && PathDistinct(p) && Distinct(s) && PathNodes(p) !! Nodes(s)
      ensures Nodes(shape) == PathNodes(p) + Nodes(s)
    {
      PlugNodes(p, s);
      PlugLinks(p, s, m_root, null, stale, freed);
    }

    /** Where a subtree is cut out, keys still name the nodes in it and the stale ones. */
    lemma KeysStayApart(p: Path, s: Shape)
      requires Valid() && shape == Plug(p, s)
      ensures OneNodePerKey(stale + Nodes(s))
    {
      PlugNodes(p, s);
      OrderSeparatesKeys(shape);
    }

    /** What the whole tree is, once the subtree below the hole has grown or shrunk by `t`. */
    lemma Regrown(p: Path, s: Shape, s': Shape, t: int, stale: set<Node>)
      requires Toward(p, t) && Linked(p, s', stale)
      ensures View(s') == Inserted(View(s), t) ==> View(Plug(p, s')) == Inserted(View(Plug(p, s)), t)
      ensures View(s') == Removed(View(s), t) ==> View(Plug(p, s')) == Removed(View(Plug(p, s)), t)
      ensures Nodes(Plug(p, s')) == PathNodes(p) + Nodes(s')
      ensures Down(Plug(p, s'), m_root) && Up(Plug(p, s'), null, stale, freed)
    {
      PlugView(p, s, s', t);
      PlugNodes(p, s');
      PlugLinks(p, s', m_root, null, stale, freed);
    }

    /** Lines 46-47 and 54-55: a new leaf on the side the walk would have taken next. */
    method Hang(node: Node, t: int, ghost sub: Shape, ghost above: Node?) returns (child: Node, ghost grown: Shape)
      requires sub.Branch? && sub.node == node && t != node.m_data && Distinct(sub)
      requires t > node.m_data ==> sub.right.Empty?
      requires t < node.m_data ==> sub.left.Empty?
      requires Down(sub, node) && Up(sub, above, stale, freed)
      modifies node`m_left, node`m_right
      ensures grown.Branch? && grown.node == node && View(grown) == Inserted(View(sub), t)
      ensures fresh(child) && Nodes(grown) == Nodes(sub) + {child}
      ensures Down(grown, node) && Up(grown, above, stale, freed)
    {
      ghost var below := Nodes(sub);
      assert allocated(below);
      child := new Node(t);
      child.m_parent := node;
      ghost var leaf := Branch(Empty, child, Empty);
      if t > node.m_data {
        node.m_right := child;
        grown := Branch(sub.left, node, leaf);
      } else {
        node.m_left := child;
        grown := Branch(leaf, node, sub.right);
      }
    }

    /** The part of `add` below the walk that changes the heap. */
    method Grow(node: Node, t: int, ghost path: Path, ghost sub: Shape) returns (child: Node, ghost grown: Shape)
      requires sub.Branch? && sub.node == node && t != node.m_data
      requires t > node.m_data ==> sub.right.Empty?
      requires t < node.m_data ==> sub.left.Empty?
      requires Linked(path, sub, stale) && Distinct(sub) && PathNodes(path) !! Nodes(sub)
      modifies node`m_left, node`m_right
      ensures View(grown) == Inserted(View(sub), t)
      ensures fresh(child) && Nodes(grown) == Nodes(sub) + {child}
      ensures Linked(path, grown, stale)
    {
      ghost var around := PathNodes(path);
      assert allocated(around);
      child, grown := Hang(node, t, sub, Holder(path, null));
    }

    /** `Grow` seen on the whole tree. */
    method Attach(node: Node, t: int, ghost path: Path, ghost sub: Shape)
      requires Valid() && shape == Plug(path, sub) && sub.Branch? && sub.node == node && t != node.m_data
      requires t > node.m_data ==> sub.right.Empty?
      requires t < node.m_data ==> sub.left.Empty?
      requires Toward(path, t) && Distinct(shape)
      modifies `m_size, `shape, Nodes(shape)
      ensures m_size == old(m_size) + 1 && View(shape) == Inserted(View(old(shape)), t)
      ensures Down(shape, m_root) && Up(shape, null, stale, freed)
      ensures old(Nodes(shape)) <= Nodes(shape)
      ensures forall n <- Nodes(shape) :: n in old(Nodes(shape)) || fresh(n)
    {
      Unplugged(path, sub);
      var child;
      ghost var grown;
      child, grown := Grow(node, t, path, sub);
      Regrown(path, sub, grown, t, stale);
      m_size := m_size + 1;
      shape := Plug(path, grown);
    }

    method Add(t: int)
      requires Valid()
      modifies this, Nodes(shape)
      ensures Valid() && View(shape) == Inserted(View(old(shape)), t)
      ensures forall n <- Nodes(shape) :: n in old(Nodes(shape)) || fresh(n)
      ensures stale == old(stale) && freed == old(freed)
    {
      InsertedSize(View(shape), t);
      if m_size == 0 {
        m_root := new Node(t);
        m_size := m_size + 1;
        shape := Branch(Empty, m_root, Empty);
        return;
      }
      ghost var nodes := Nodes(shape);
      assert allocated(nodes);
      OrderKeepsApart(shape);
      var current_node, _, path, sub := Walk(t);
      PlugView(path, sub, sub, t);
      if t != current_node.m_data {
        Attach(current_node, t, path, sub);
      }
    }

    /**
     `search`. The counter it prints is the depth of the node the walk ends at, the root being at
     depth one: the node holding `t`, or the last one before the place where `t` would be.
     */
    method Search(t: int) returns (found: bool, counter: nat, ghost path: Path, ghost sub: Shape)
      requires Shaped()
      ensures found <==> t in Keys(View(shape))
      ensures shape == Empty ==> counter == 0
      ensures shape != Empty ==>
                && shape == Plug(path, sub) && sub.Branch? && Toward(path, t) && counter == Length(path) + 1
                && (found ==> sub.node.m_data == t)
                && (!found ==> if t > sub.node.m_data then sub.right == Empty else sub.left == Empty)
      ensures counter == Visits(View(shape), t) <= Height(View(shape))
    {
      FindIsMembership(View(shape), t);
      if m_size == 0 {
        return false, 0, Top, Empty;
      }
      var current_node;
      current_node, counter, path, sub := Walk(t);
      PlugView(path, sub, sub, t);
      found := current_node.m_data == t;
    }

    method GetSize() returns (n: nat)
      requires Shaped()
      ensures n == |Keys(View(shape))|
    {
      SizeIsCardinality(View(shape));
      n := m_size;
    }

    /** `print` (lines 206-212): in-order, hence ascending. */
    method Print(node: Node?, ghost s: Shape) returns (out: seq<int>)
      requires Down(s, node)
      ensures out == InOrder(View(s))
      decreases s
    {
      if node == null {
        return [];
      }
      ghost var nodes := Nodes(s);
      assert allocated(nodes);
      var smaller := Print(node.m_left, s.left);
      var larger := Print(node.m_right, s.right);
      out := smaller + [node.m_data] + larger;
    }

    /**
     `travPrint`. On an empty tree it still reads `m_root`, and walks off if nothing has ever set
     it; so does the destructor (line 31). `Del` leaves null there when it deletes the last key.
     */
    method TravPrint() returns (astray: bool, out: seq<int>)
      requires Shaped()
      ensures astray <==> shape == Empty && m_root != null
      ensures !astray ==> Ascending(out) && (forall t :: t in out <==> t in Keys(View(shape)))
    {
      if m_size == 0 && m_root != null {
        return true, [];
      }
      InOrderIsSorted(View(shape));
      astray := false;
      out := Print(m_root, shape);
    }

    // ---------- Deletion ----------

    ghost function Parents(node: Node): set<Node>
      reads node`m_parent
    {
      if node.m_parent == null then {} else {node.m_parent}
    }

    /** Hangs `replacement` where `node` hung (lines 76-85, 88-96, 101-109, 138-144, 148). */
    method Splice(node: Node, replacement: Node?, ghost path: Path)
      requires PathDown(path, m_root, node) && PathDistinct(path) && node !in PathNodes(path)
      requires node.m_parent == Holder(path, null)
      modifies `m_root, Parents(node)`m_left, Parents(node)`m_right
      ensures PathDown(path, m_root, replacement)
    {
      var parent := node.m_parent;
      if parent != null {
        if parent.m_left == node {
          parent.m_left := replacement;
        } else if parent.m_right == node {
          parent.m_right := replacement;
        }
      } else {
        m_root := replacement;
      }
    }

    /** Lines 114-117: the in-order successor, at the end of the left spine of the right child. */
    method Successor(node: Node, ghost right: Shape)
      returns (target: Node, ghost spine: Path, ghost tail: Shape)
      requires right.Branch? && Down(right, node.m_right) && Distinct(right)
      ensures right == Plug(spine, Branch(Empty, target, tail)) && TurnsLeftOnly(spine)
      ensures PathDown(spine, node.m_right, target) && Down(Branch(Empty, target, tail), target)
      ensures PathDistinct(spine) && Distinct(Branch(Empty, target, tail))
      ensures PathNodes(spine) !! Nodes(Branch(Empty, target, tail))
    {
      target := node.m_right;
      spine := Top;
      ghost var sub := right;
      while target.m_left != null
        invariant sub.Branch? && sub.node == target && right == Plug(spine, sub) && TurnsLeftOnly(spine)
        invariant PathDown(spine, node.m_right, target) && Down(sub, target)
        invariant PathDistinct(spine) && Distinct(sub) && PathNodes(spine) !! Nodes(sub)
        decreases sub
      {
        spine, sub := LeftOf(spine, target, sub.right), sub.left;
        target := target.m_left;
      }
      tail := sub.right;
    }

    /** Sets the parent of the node on top of `s`, which is thereby no longer stale. */
    method Reparent(top: Node, parent: Node?, ghost s: Shape, ghost held: Node?,
                    ghost before: set<Node>, ghost after: set<Node>)
      requires s.Branch? && s.node == top && Distinct(s) && Up(s, held, before, freed) && top !in after
      requires forall n <- Nodes(s) :: n != top ==> (n in before <==> n in after)
      modifies top`m_parent
      ensures Up(s, parent, after, freed)
    {
      Rehangs(s, held, before, after, freed, freed);
      top.m_parent := parent;
    }

    /** Lines 119-124 and 127-132: what hangs right of the successor takes its place. */
    method SpliceBelow(target: Node, replacement: Node?, node: Node, ghost spine: Path)
      requires node.m_left != target && target.m_parent == Holder(spine, node)
      requires node !in PathNodes(spine) && PathDown(spine, node.m_right, target) && PathDistinct(spine)
      requires target !in PathNodes(spine)
      modifies Parents(target)`m_left, Parents(target)`m_right
      ensures node.m_left == old(node.m_left) && PathDown(spine, node.m_right, replacement)
    {
      var target_parent := target.m_parent;
      if target_parent.m_left == target {
        target_parent.m_left := replacement;
      } else {
        target_parent.m_right := replacement;
      }
    }

    /** Lines 118-133: cuts the successor out of the right subtree, relinking its right child. */
    method Detach(target: Node, node: Node, ghost spine: Path, ghost tail: Shape)
      requires node.m_left != target && target.m_parent == Holder(spine, node)
      requires node !in PathNodes(spine) + Nodes(tail) + {target}
      requires PathDown(spine, node.m_right, target) && Down(tail, target.m_right)
      requires PathUp(spine, node, stale, freed) && Up(tail, target, stale, freed)
      requires PathDistinct(spine) && Distinct(tail) && target !in PathNodes(spine)
      requires PathNodes(spine) !! Nodes(tail) && target !in Nodes(tail)
      modifies Parents(target)`m_left, Parents(target)`m_right, Nodes(tail)`m_parent
      ensures node.m_left == old(node.m_left)
      ensures PathDown(spine, node.m_right, TopOf(tail)) && Down(tail, TopOf(tail))
      ensures PathUp(spine, node, stale - TopNode(tail), freed)
      ensures Up(tail, Holder(spine, node), stale - TopNode(tail), freed)
    {
      ghost var around, below := PathNodes(spine), Nodes(tail);
      assert allocated(around) && allocated(below);
      PathUpAgrees(spine, node, stale, stale - TopNode(tail), freed, freed);
      SpliceBelow(target, target.m_right, node, spine);
      if target.m_right != null {
        Reparent(target.m_right, target.m_parent, tail, target, stale, stale - TopNode(tail));
      }
    }

    /** Lines 114-133: finds the successor and cuts it out of the right subtree. */
    method CutSuccessor(node: Node, ghost right: Shape)
      returns (outcome: Deletion, target: Node, ghost rest: Shape, ghost tail: Shape)
      requires right.Branch? && Down(right, node.m_right) && Up(right, node, stale, freed) && Distinct(right)
      requires node !in Nodes(right) && node.m_left !in Nodes(right) && freed !! Nodes(right) + {node}
      modifies node`m_left, node`m_right, Nodes(right)
      ensures outcome == if target in stale then StaleParent else Returned(true)
      ensures target.m_data == MinKey(View(right)) && target in Nodes(right)
      ensures View(rest) == WithoutMin(View(right)) && Nodes(rest) == Nodes(right) - {target}
      ensures View(tail) == BesideMin(View(right)) && Nodes(tail) <= Nodes(rest)
      ensures outcome.Returned? ==> node.m_left == old(node.m_left)
      ensures outcome.Returned? ==> Down(rest, node.m_right) && Up(rest, node, stale - TopNode(tail), freed)
      ensures Distinct(rest)
    {
      ghost var spine;
      ghost var below := Nodes(right);
      assert allocated(below);
      target, spine, tail := Successor(node, right);
      rest := Plug(spine, tail);
      PlugNodes(spine, Branch(Empty, target, tail));
      PlugNodes(spine, tail);
      PlugLinks(spine, Branch(Empty, target, tail), node.m_right, node, stale, freed);
      SpineEndIsMin(spine, Branch(Empty, target, tail), tail);
      if target.m_parent in freed {
        return StaleParent, target, rest, tail;
      }
      Detach(target, node, spine, tail);
      PlugLinks(spine, tail, node.m_right, node, stale - TopNode(tail), freed);
      outcome := Returned(true);
    }

    /**
     Lines 134-137: the successor takes over both subtrees. Line 137 dereferences the right
     child unconditionally; with `relink` it is guarded (first repair).
     */
    method Promote(target: Node, node: Node, relink: bool, ghost l: Shape, ghost rest: Shape,
                   ghost before: set<Node>) returns (crashed: bool)
      requires l.Branch? && Down(l, node.m_left) && Down(rest, node.m_right)
      requires Up(l, node, before, freed) && Up(rest, node, before, freed) && Distinct(Branch(l, target, rest))
      requires node != target && node !in Nodes(l) + Nodes(rest)
      modifies target`m_left, target`m_right, Nodes(l)`m_parent, Nodes(rest)`m_parent
      ensures crashed <==> !relink && rest.Empty?
      ensures !crashed ==> Down(Branch(l, target, rest), target)
      ensures !crashed ==> var after := before - TopNode(l) - TopNode(rest);
                           Up(l, target, after, freed) && Up(rest, target, after, freed)
    {
      ghost var after := before - TopNode(l) - TopNode(rest);
      Rehangs(l, node, before, after, freed, freed);
      Rehangs(rest, node, before, after, freed, freed);
      target.m_left := node.m_left;
      node.m_left.m_parent := target;
      target.m_right := node.m_right;
      if node.m_right == null && !relink {
        return true;
      }
      if node.m_right != null {
        node.m_right.m_parent := target;
      }
      crashed := false;
    }

    /**
     Lines 76-85, 88-98 and 101-111: the only child of `node`, or nothing, moves up into its
     place. The new root loses its parent; below the root the child keeps pointing at `node`,
     unless `relink` repairs it (second repair, after lines 91, 93, 104 and 106).
     */
    method Reseat(node: Node, replacement: Node?, relink: bool, ghost path: Path, ghost child: Shape)
      requires PathDown(path, m_root, node) && PathUp(path, null, stale, freed) && node.m_parent == Holder(path, null)
      requires PathDistinct(path) && node !in PathNodes(path) + Nodes(child)
      requires Down(child, replacement) && Up(child, node, stale, freed)
      requires Distinct(child) && PathNodes(path) !! Nodes(child)
      modifies `m_root, Parents(node)`m_left, Parents(node)`m_right, Nodes(child)`m_parent
      ensures PathDown(path, m_root, replacement) && Down(child, replacement) && PathUp(path, null, stale, freed)
      ensures if relink || path.Top? then Up(child, Holder(path, null), stale - TopNode(child), freed)
              else Up(child, node, stale, freed)
    {
      ghost var around, below := PathNodes(path), Nodes(child);
      assert allocated(around) && allocated(below);
      Splice(node, replacement, path);
      if replacement != null && (node.m_parent == null || relink) {
        Reparent(replacement, node.m_parent, child, node, stale, stale - TopNode(child));
      }
    }

    /** `Reseat`, and `node` is deleted. */
    method MoveUp(node: Node, replacement: Node?, relink: bool, ghost path: Path, ghost child: Shape)
      requires PathDown(path, m_root, node) && PathUp(path, null, stale, freed) && node.m_parent == Holder(path, null)
      requires PathDistinct(path) && node !in PathNodes(path) + Nodes(child)
      requires Down(child, replacement) && Up(child, node, stale, freed)
      requires Distinct(child) && PathNodes(path) !! Nodes(child)
      modifies `m_root, `freed, Parents(node)`m_left, Parents(node)`m_right, Nodes(child)`m_parent
      ensures freed == old(freed) + {node}
      ensures Linked(path, child, Moved(stale, child, relink || path.Top?))
    {
      Reseat(node, replacement, relink, path, child);
      ghost var after := Moved(stale, child, relink || path.Top?);
      PathUpAgrees(path, null, stale, after, freed, freed + {node});
      if relink || path.Top? {
        UpAgrees(child, Holder(path, null), after, after, freed, freed + {node});
      } else {
        GoesStale(child, node, Holder(path, null), stale, freed);
      }
      freed := freed + {node};
    }

    /** Lines 74-112: `node` has at most one child. */
    method DelShallow(node: Node, relink: bool, ghost path: Path, ghost sub: Shape)
      returns (outcome: Deletion, ghost heir: Shape)
      requires sub.Branch? && sub.node == node && (sub.left.Empty? || sub.right.Empty?)
      requires Linked(path, sub, stale) && PathDistinct(path) && Distinct(sub)
      requires PathNodes(path) !! Nodes(sub) && freed !! PathNodes(path) + Nodes(sub)
      modifies `m_root, `freed, PathNodes(path)`m_left, PathNodes(path)`m_right, Nodes(sub)
      ensures outcome == if node in stale then StaleParent else Returned(true)
      ensures heir == if sub.left.Empty? then sub.right else sub.left
      ensures outcome.Returned? ==> freed == old(freed) + {node}
      ensures outcome.Returned? ==> Linked(path, heir, Moved(stale, heir, relink || path.Top?))
    {
      heir := if sub.left.Empty? then sub.right else sub.left;
      if node.m_parent in freed {
        return StaleParent, heir;
      }
      assert Down(sub.left, node.m_left) && Down(sub.right, node.m_right);
      if node.m_left == null && node.m_right == null {
        MoveUp(node, null, relink, path, heir);
      } else if node.m_left == null {
        MoveUp(node, node.m_right, relink, path, heir);
      } else {
        MoveUp(node, node.m_left, relink, path, heir);
      }
      outcome := Returned(true);
    }

    /** `delete node`, which leaves the links of all others as they are. */
    method Release(node: Node, ghost path: Path, ghost s: Shape, ghost before: set<Node>)
      requires Linked(path, s, before)
      modifies `freed
      ensures freed == old(freed) + {node} && Linked(path, s, before)
    {
      PathUpAgrees(path, null, before, before, freed, freed + {node});
      UpAgrees(s, Holder(path, null), before, before, freed, freed + {node});
      freed := freed + {node};
    }

    /** Lines 138-149: the successor hangs where `node` hung. */
    method Install(node: Node, target: Node, ghost path: Path, ghost heir: Shape, ghost before: set<Node>)
      requires heir.Branch? && heir.node == target && target != node && target !in before
      requires PathDown(path, m_root, node) && PathUp(path, null, before, freed) && node.m_parent == Holder(path, null)
      requires PathDistinct(path) && node !in PathNodes(path) && PathNodes(path) !! Nodes(heir)
      requires Distinct(heir) && Down(heir, target)
      requires Up(heir.left, target, before, freed) && Up(heir.right, target, before, freed)
      modifies `m_root, Parents(node)`m_left, Parents(node)`m_right, target`m_parent
      ensures Linked(path, heir, before)
    {
      ghost var around, below := PathNodes(path), Nodes(heir);
      assert allocated(around) && allocated(below);
      Splice(node, target, path);
      target.m_parent := node.m_parent;
    }

    /** Lines 114-137: builds the heir of `node`, its in-order successor over both subtrees. */
    method Succeed(node: Node, relink: bool, ghost sub: Shape)
      returns (outcome: Deletion, target: Node, ghost heir: Shape, ghost tail: Shape)
      requires sub.Branch? && sub.node == node && sub.left.Branch? && sub.right.Branch?
      requires Down(sub, node) && Up(sub.left, node, stale, freed) && Up(sub.right, node, stale, freed)
      requires Distinct(sub) && freed !! Nodes(sub)
      modifies node`m_left, node`m_right, Nodes(sub.left), Nodes(sub.right)
      ensures target in Nodes(sub.right) && target.m_data == MinKey(View(sub.right))
      ensures heir.Branch? && heir.left == sub.left && heir.node == target
      ensures View(heir.right) == WithoutMin(View(sub.right))
      ensures View(tail) == BesideMin(View(sub.right)) && Nodes(tail) <= Nodes(heir.right)
      ensures Nodes(heir) == Nodes(sub) - {node} && Distinct(heir)
      ensures outcome == if target in stale then StaleParent
                         else if !relink && IsLeaf(View(sub.right)) then NullDereference
                         else Returned(true)
      ensures outcome.Returned? ==> Down(heir, target)
      ensures outcome.Returned? ==> Up(heir.left, target, Healed(heir, tail), freed)
      ensures outcome.Returned? ==> Up(heir.right, target, Healed(heir, tail), freed)
    {
      ghost var l := sub.left;
      ghost var below := Nodes(l);
      assert allocated(below);
      ghost var rest;
      outcome, target, rest, tail := CutSuccessor(node, sub.right);
      heir := Branch(l, target, rest);
      if outcome.Returned? {
        UpAgrees(l, node, stale, stale - TopNode(tail), freed, freed);
        var crashed := Promote(target, node, relink, l, rest, stale - TopNode(tail));
        if crashed {
          outcome := NullDereference;
        }
      }
    }

    /** The nodes still stale once the heir stands: lines 125, 135 and 137 have set three parents. */
    ghost function Healed(heir: Shape, tail: Shape): set<Node>
      requires heir.Branch?
      reads `stale
    {
      stale - TopNode(tail) - TopNode(heir.left) - TopNode(heir.right)
    }

    /** Lines 138-150: reads the parent of `node`, and hangs the heir there. */
    method Replace(node: Node, target: Node, ghost path: Path, ghost heir: Shape, ghost tail: Shape)
      returns (outcome: Deletion)
      requires heir.Branch? && heir.node == target && target != node && target !in stale
      requires PathDown(path, m_root, node) && PathUp(path, null, stale, freed) && PathDistinct(path)
      requires PointsUp(node, Holder(path, null), stale, freed)
      requires node !in PathNodes(path) && PathNodes(path) !! Nodes(heir) && freed !! PathNodes(path)
      requires Distinct(heir) && Down(heir, target) && Nodes(tail) <= Nodes(heir)
      requires Up(heir.left, target, Healed(heir, tail), freed) && Up(heir.right, target, Healed(heir, tail), freed)
      modifies `m_root, `freed, PathNodes(path)`m_left, PathNodes(path)`m_right, target`m_parent
      ensures outcome == if node in stale then StaleParent else Returned(true)
      ensures outcome.Returned? ==> freed == old(freed) + {node}
      ensures outcome.Returned? ==> Linked(path, heir, Healed(heir, tail))
    {
      if node.m_parent in freed {
        return StaleParent;
      }
      PathUpAgrees(path, null, stale, Healed(heir, tail), freed, freed);
      Install(node, target, path, heir, Healed(heir, tail));
      Release(node, path, heir, Healed(heir, tail));
      outcome := Returned(true);
    }

    /** Lines 113-150: `node` has two children; its heir takes its place. */
    method DelDeep(node: Node, relink: bool, ghost path: Path, ghost sub: Shape)
      returns (outcome: Deletion, ghost target: Node, ghost heir: Shape, ghost tail: Shape)
      requires sub.Branch? && sub.node == node && sub.left.Branch? && sub.right.Branch?
      requires Linked(path, sub, stale) && PathDistinct(path) && Distinct(sub)
      requires PathNodes(path) !! Nodes(sub) && freed !! PathNodes(path) + Nodes(sub)
      modifies `m_root, `freed, PathNodes(path)`m_left, PathNodes(path)`m_right, Nodes(sub)
      ensures target in Nodes(sub.right) && target.m_data == MinKey(View(sub.right))
      ensures heir.Branch? && heir.left == sub.left && heir.node == target
      ensures View(heir.right) == WithoutMin(View(sub.right))
      ensures View(tail) == BesideMin(View(sub.right)) && Nodes(tail) <= Nodes(heir.right)
      ensures Nodes(heir) == Nodes(sub) - {node}
      ensures outcome == if target in stale then StaleParent
                         else if !relink && IsLeaf(View(sub.right)) then NullDereference
                         else if node in stale then StaleParent
                         else Returned(true)
      ensures outcome.Returned? ==> freed == old(freed) + {node}
      ensures outcome.Returned? ==> Linked(path, heir, Healed(heir, tail))
    {
      ghost var around := PathNodes(path);
      assert allocated(around);
      var successor;
      outcome, successor, heir, tail := Succeed(node, relink, sub);
      target := successor;
      if outcome.Returned? {
        outcome := Replace(node, successor, path, heir, tail);
      }
    }

    /** Lines 74-151: the three ways to take `node` out, by how many children it has. */
    method TakeOut(node: Node, relink: bool, ghost path: Path, ghost sub: Shape)
      returns (outcome: Deletion, ghost heir: Shape, ghost after: set<Node>)
      requires sub.Branch? && sub.node == node && OneNodePerKey(stale + Nodes(sub))
      requires Linked(path, sub, stale) && PathDistinct(path) && Distinct(sub)
      requires PathNodes(path) !! Nodes(sub) && freed !! PathNodes(path) + Nodes(sub)
      modifies `m_root, `freed, PathNodes(path)`m_left, PathNodes(path)`m_right, Nodes(sub)
      ensures outcome == Taking(View(sub), KeysOf(stale), relink)
      ensures View(heir) == Removed(View(sub), node.m_data) && Nodes(heir) == Nodes(sub) - {node}
      ensures KeysOf(after) == StaleAround(View(sub), KeysOf(stale), relink || path.Top?)
      ensures outcome.Returned? ==> after <= (stale + Nodes(heir)) - {node}
      ensures outcome.Returned? ==> freed == old(freed) + {node} && Linked(path, heir, after)
    {
      StaleNodes(sub, stale, node);
      assert Down(sub.left, node.m_left) && Down(sub.right, node.m_right);
      if node.m_left == null || node.m_right == null {
        outcome, heir := DelShallow(node, relink, path, sub);
        after := Moved(stale, heir, relink || path.Top?);
        MovedKeys(sub, stale, relink || path.Top?);
      } else {
        ghost var target, tail;
        outcome, target, heir, tail := DelDeep(node, relink, path, sub);
        after := Healed(heir, tail);
        StaleNodes(sub, stale, target);
        HealedKeys(sub, heir, tail, stale);
      }
    }

    /** `TakeOut` seen on the whole tree. */
    method Unhook(node: Node, relink: bool, ghost path: Path, ghost sub: Shape) returns (outcome: Deletion)
      requires Valid() && shape == Plug(path, sub) && sub.Branch? && sub.node == node
      requires Toward(path, node.m_data) && Distinct(shape) && Find(View(shape), node.m_data) == View(sub)
      modifies `m_root, `freed, `shape, `stale, Nodes(shape)
      ensures outcome == Taking(View(sub), KeysOf(old(stale)), relink)
      ensures outcome.Returned? ==> View(shape) == Removed(View(old(shape)), node.m_data)
      ensures outcome.Returned? ==> Nodes(shape) == old(Nodes(shape)) - {node} && freed == old(freed) + {node}
      ensures outcome.Returned? ==> Down(shape, m_root) && Up(shape, null, stale, freed) && stale <= Nodes(shape)
      ensures outcome.Returned? ==> KeysOf(stale) == StaleAround(View(sub), KeysOf(old(stale)), relink || path.Top?)
    {
      Unplugged(path, sub);
      KeysStayApart(path, sub);
      ghost var heir, after;
      outcome, heir, after := TakeOut(node, relink, path, sub);
      if outcome.Returned? {
        Regrown(path, sub, heir, node.m_data, after);
        shape, stale := Plug(path, heir), after;
      }
    }

    /** Lines 74-153: `Unhook`, and the size. */
    method DelAt(node: Node, relink: bool, ghost path: Path, ghost sub: Shape) returns (outcome: Deletion)
      requires Valid() && shape == Plug(path, sub) && sub.Branch? && sub.node == node
      requires Toward(path, node.m_data) && Distinct(shape) && Find(View(shape), node.m_data) == View(sub)
      requires var k := Removed(View(shape), node.m_data); Ordered(k) && Size(k) == Size(View(shape)) - 1
      modifies this, Nodes(shape)
      ensures outcome == Taking(View(sub), KeysOf(old(stale)), relink)
      ensures outcome.Returned? ==> Valid() && View(shape) == Removed(View(old(shape)), node.m_data)
      ensures outcome.Returned? ==> KeysOf(stale) == StaleAround(View(sub), KeysOf(old(stale)), relink || path.Top?)
      ensures outcome.Returned? ==> Nodes(shape) <= old(Nodes(shape)) && (shape == Empty ==> m_root == null)
    {
      outcome := Unhook(node, relink, path, sub);
      if outcome.Returned? {
        m_size := m_size - 1;
      }
    }

    /**
     `del`. With `relink` false this is the code as it stands, with `relink` true the code with
     its three repairs. Whenever it returns, its answer, the keys, the order, the size and the
     child links are right, and exactly the nodes of `StaleAfter` have a stale parent. It fails to
     return exactly when it follows a stale parent or, as it stands, when the successor is a bare
     right child.
     */
    method Del(t: int, relink: bool) returns (outcome: Deletion)
      requires Valid()
      modifies this, Nodes(shape)
      ensures outcome.Returned? <==>
              !ReadsStale(View(old(shape)), KeysOf(old(stale)), t) &&
              (relink || !SuccessorIsBareChild(View(old(shape)), t))
      ensures outcome.NullDereference? <==>
              !relink && SuccessorIsBareChild(View(old(shape)), t) &&
              Find(View(old(shape)), t).right.key !in KeysOf(old(stale))
      ensures outcome.StaleParent? ==> ReadsStale(View(old(shape)), KeysOf(old(stale)), t)
      ensures outcome.Returned? ==> outcome.found == (t in Keys(View(old(shape))))
      ensures outcome.Returned? ==> Valid() && View(shape) == Removed(View(old(shape)), t)
      ensures outcome.Returned? ==> KeysOf(stale) == StaleAfter(View(old(shape)), KeysOf(old(stale)), t, relink)
      ensures outcome.Returned? ==> Nodes(shape) <= old(Nodes(shape))
      ensures outcome.Returned? && shape == Empty && old(shape) != Empty ==> m_root == null
    {
      DeletionFacts(View(shape), KeysOf(stale), t, relink);
      if m_size == 0 {
        return Returned(false);
      }
      ghost var nodes := Nodes(shape);
      assert allocated(nodes);
      OrderKeepsApart(shape);
      var current_node, _, path, sub := Walk(t);
      PlugView(path, sub, sub, t);
      if current_node.m_data != t {
        return Returned(false);
      }
      outcome := DelAt(current_node, relink, path, sub);
    }
  }

  /** Where keys name nodes, a node is stale when its key is. */
  lemma StaleNodes(sub: Shape, stale: set<Node>, n: Node)
    requires OneNodePerKey(stale + Nodes(sub)) && n in Nodes(sub)
    ensures n in stale <==> n.m_data in KeysOf(stale)
  {
    KeysOfMinus(stale + Nodes(sub), stale, {n});
  }

  lemma TopKeyOf(all: set<Node>, a: set<Node>, s: Shape)
    requires OneNodePerKey(all) && a <= all && Nodes(s) <= all
    ensures KeysOf(a - TopNode(s)) == KeysOf(a) - TopKey(View(s))
    ensures KeysOf(a + TopNode(s)) == KeysOf(a) + TopKey(View(s))
  {
    KeysOfMinus(all, a, TopNode(s));
    assert KeysOf(TopNode(s)) == TopKey(View(s));
  }

  lemma MovedKeys(sub: Shape, stale: set<Node>, exact: bool)
    requires OneNodePerKey(stale + Nodes(sub)) && sub.Branch? && (sub.left.Empty? || sub.right.Empty?)
    ensures var heir := if sub.left.Empty? then sub.right else sub.left;
            KeysOf(Moved(stale, heir, exact)) == StaleAround(View(sub), KeysOf(stale), exact)
  {
    TopKeyOf(stale + Nodes(sub), stale, if sub.left.Empty? then sub.right else sub.left);
  }

  lemma HealedKeys(sub: Shape, heir: Shape, tail: Shape, stale: set<Node>)
    requires OneNodePerKey(stale + Nodes(sub)) && sub.Branch? && sub.left.Branch? && sub.right.Branch?
    requires heir.Branch? && heir.left == sub.left && View(heir.right) == WithoutMin(View(sub.right))
    requires View(tail) == BesideMin(View(sub.right)) && Nodes(tail) + Nodes(heir.right) <= Nodes(sub)
    ensures var after := stale - TopNode(tail) - TopNode(heir.left) - TopNode(heir.right);
            forall exact :: KeysOf(after) == StaleAround(View(sub), KeysOf(stale), exact)
  {
    var all := stale + Nodes(sub);
    TopKeyOf(all, stale, tail);
    TopKeyOf(all, stale - TopNode(tail), heir.left);
    TopKeyOf(all, stale - TopNode(tail) - TopNode(heir.left), heir.right);
  }
}
