/**
 The binary search tree of algorithm/tree.hpp seen without its heap: which keys sit where.

 `Inserted` and `Removed` say which tree `add` and `del` must leave behind, key by key, and the
 lemmas say what that means for the set of keys. `KeepsLinks` is the condition, read off the
 tree before the call, under which `del` as it is coded leaves every parent pointer right.
 */
module KeyTrees {

  datatype KeyTree = Nil | Fork(left: KeyTree, key: int, right: KeyTree)

  function Keys(k: KeyTree): set<int> {
    match k
    case Nil => {}
    case Fork(l, x, r) => Keys(l) + {x} + Keys(r)
  }

  function Size(k: KeyTree): nat {
    match k
    case Nil => 0
    case Fork(l, _, r) => Size(l) + 1 + Size(r)
  }

  function Height(k: KeyTree): nat {
    match k
    case Nil => 0
    case Fork(l, _, r) => 1 + if Height(l) < Height(r) then Height(r) else Height(l)
  }

  /** The search order: smaller keys to the left, larger ones to the right, no key twice. */
  ghost predicate Ordered(k: KeyTree) {
    match k
    case Nil => true
    case Fork(l, x, r) =>
      Ordered(l) && Ordered(r) && (forall y <- Keys(l) :: y < x) && (forall y <- Keys(r) :: x < y)
  }

  /** The keys from left to right. */
  function InOrder(k: KeyTree): seq<int> {
    match k
    case Nil => []
    case Fork(l, x, r) => InOrder(l) + [x] + InOrder(r)
  }

  ghost predicate Ascending(s: seq<int>) {
    forall i, j :: 0 <= i < j < |s| ==> s[i] < s[j]
  }

  function Inserted(k: KeyTree, t: int): KeyTree {
    match k
    case Nil => Fork(Nil, t, Nil)
    case Fork(l, x, r) =>
      if t > x then Fork(l, x, Inserted(r, t))
      else if t < x then Fork(Inserted(l, t), x, r)
      else k
  }

  function MinKey(k: KeyTree): int
    requires k.Fork?
  {
    if k.left.Nil? then k.key else MinKey(k.left)
  }

  function WithoutMin(k: KeyTree): KeyTree
    requires k.Fork?
  {
    if k.left.Nil? then k.right else Fork(WithoutMin(k.left), k.key, k.right)
  }

  function Removed(k: KeyTree, t: int): KeyTree {
    match k
    case Nil => Nil
    case Fork(l, x, r) =>
      if t > x then Fork(l, x, Removed(r, t))
      else if t < x then Fork(Removed(l, t), x, r)
      else if l.Nil? then r
      else if r.Nil? then l
      else Fork(l, MinKey(r), WithoutMin(r))
  }

  predicate IsLeaf(k: KeyTree) {
    k.Fork? && k.left.Nil? && k.right.Nil?
  }

  /** The subtree a search for `t` stops at: the one with `t` at its top, or `Nil`. */
  function Find(k: KeyTree, t: int): KeyTree {
    match k
    case Nil => Nil
    case Fork(l, x, r) => if t > x then Find(r, t) else if t < x then Find(l, t) else k
  }

  /** How many nodes a search for `t` looks at. */
  function Visits(k: KeyTree, t: int): nat {
    match k
    case Nil => 0
    case Fork(l, x, r) => 1 + if t > x then Visits(r, t) else if t < x then Visits(l, t) else 0
  }

  predicate HasBoth(k: KeyTree) {
    k.Fork? && k.left.Fork? && k.right.Fork?
  }

  function TopKey(k: KeyTree): set<int> {
    if k.Nil? then {} else {k.key}
  }

  /** What hangs to the right of the least key. */
  function BesideMin(k: KeyTree): KeyTree
    requires k.Fork?
  {
    if k.left.Nil? then k.right else BesideMin(k.left)
  }

  /** `del` reaches line 137 with a null right child. */
  predicate SuccessorIsBareChild(k: KeyTree, t: int) {
    var at := Find(k, t);
    at.Fork? && at.left.Fork? && IsLeaf(at.right)
  }

  /** `del` splices a single child into a non-root place (lines 91, 93, 104 and 106). */
  predicate SplicesBelowRoot(k: KeyTree, t: int) {
    var at := Find(k, t);
    at.Fork? && k.key != t && at.left.Fork? != at.right.Fork?
  }

  /**
   `del` follows the parent pointer of the node it deletes (lines 76, 88, 101 and 138) and, when
   that node has two children, of its successor (lines 119 and 127). `stale` are the keys whose
   nodes point at a deleted parent.
   */
  predicate ReadsStale(k: KeyTree, stale: set<int>, t: int) {
    var at := Find(k, t);
    at.Fork? && (t in stale || (HasBoth(at) && MinKey(at.right) in stale))
  }

  /**
   Which keys have a stale parent once the top of `at` has been taken out. Lines 125, 135 and 137
   set the parents of up to three nodes; an only child gets the right parent only if `exact`.
   */
  function StaleAround(at: KeyTree, stale: set<int>, exact: bool): set<int>
    requires at.Fork?
  {
    if HasBoth(at) then stale - TopKey(BesideMin(at.right)) - TopKey(at.left) - TopKey(WithoutMin(at.right))
    else
      var only := TopKey(if at.left.Nil? then at.right else at.left);
      if exact then stale - only else stale + only
  }

  function StaleAfter(k: KeyTree, stale: set<int>, t: int, relink: bool): set<int> {
    var at := Find(k, t);
    if at.Nil? then stale else StaleAround(at, stale, relink || k.key == t)
  }

  /** The guard under which `del`, unrepaired, leaves all parent pointers exact. */
  predicate KeepsLinks(k: KeyTree, t: int) {
    !SuccessorIsBareChild(k, t) && !SplicesBelowRoot(k, t)
  }

  lemma {:induction false} SizeIsCardinality(k: KeyTree)
    requires Ordered(k)
    ensures Size(k) == |Keys(k)|
  {
    match k
    case Nil =>
    case Fork(l, x, r) =>
      SizeIsCardinality(l);
      SizeIsCardinality(r);
      forall y | y in Keys(l)
        ensures y !in Keys(r)
      {
        assert y < x;
      }
      assert Keys(l) !! Keys(r);
      assert |Keys(l) + {x} + Keys(r)| == |Keys(l)| + 1 + |Keys(r)|;
  }

  /** `print` visits the keys in ascending order and misses none. */
  lemma {:induction false} InOrderIsSorted(k: KeyTree)
    requires Ordered(k)
    ensures Ascending(InOrder(k))
    ensures forall y :: y in InOrder(k) <==> y in Keys(k)
  {
    match k
    case Nil =>
    case Fork(l, x, r) =>
      InOrderIsSorted(l);
      InOrderIsSorted(r);
      var a, b := InOrder(l), InOrder(r);
      assert forall i :: 0 <= i < |a| ==> a[i] in Keys(l);
      assert forall i :: 0 <= i < |b| ==> b[i] in Keys(r);
  }

  /** A search looks at no more nodes than the tree is high, and stops at `t` if it is there. */
  lemma {:induction false} FindIsMembership(k: KeyTree, t: int)
    requires Ordered(k)
    ensures t in Keys(k) <==> Find(k, t).Fork? && Find(k, t).key == t
    ensures t !in Keys(k) ==> Find(k, t).Nil?
    ensures Visits(k, t) <= Height(k)
  {
    match k
    case Nil =>
    case Fork(l, x, r) =>
      FindIsMembership(l, t);
      FindIsMembership(r, t);
  }

  lemma {:induction false} InsertedIsUnion(k: KeyTree, t: int)
    requires Ordered(k)
    ensures Ordered(Inserted(k, t)) && Keys(Inserted(k, t)) == Keys(k) + {t}
    ensures t in Keys(k) ==> Inserted(k, t) == k
    ensures t !in Keys(k) ==> Size(Inserted(k, t)) == Size(k) + 1
  {
    match k
    case Nil =>
    case Fork(l, x, r) =>
      InsertedIsUnion(l, t);
      InsertedIsUnion(r, t);
  }

  lemma InsertedSize(k: KeyTree, t: int)
    requires Ordered(k)
    ensures Ordered(Inserted(k, t))
    ensures Size(Inserted(k, t)) == Size(k) + if Find(k, t).Fork? then 0 else 1
  {
    FindIsMembership(k, t);
    InsertedIsUnion(k, t);
  }

  lemma {:induction false} WithoutMinIsDifference(k: KeyTree)
    requires k.Fork? && Ordered(k)
    ensures Size(WithoutMin(k)) == Size(k) - 1
    ensures MinKey(k) in Keys(k) && forall y <- Keys(k) :: MinKey(k) <= y
    ensures Ordered(WithoutMin(k)) && Keys(WithoutMin(k)) == Keys(k) - {MinKey(k)}
  {
    if k.left.Fork? {
      WithoutMinIsDifference(k.left);
    }
  }

  /** The in-order successor can stand where its predecessor stood. */
  lemma HeirIsOrdered(l: KeyTree, x: int, r: KeyTree)
    requires Ordered(Fork(l, x, r)) && r.Fork?
    ensures var m, rest := MinKey(r), WithoutMin(r);
            Ordered(Fork(l, m, rest)) && {m} + Keys(rest) == Keys(r) && Size(rest) + 1 == Size(r)
  {
    WithoutMinIsDifference(r);
    var m, rest := MinKey(r), WithoutMin(r);
    forall y | y in Keys(l)
      ensures y < m
    {
      assert m in Keys(r);
    }
    forall y | y in Keys(rest)
      ensures m < y
    {
      assert y in Keys(r) && y != m;
    }
  }

  lemma RemovedAtTop(l: KeyTree, x: int, r: KeyTree)
    requires Ordered(Fork(l, x, r))
    ensures var k := Removed(Fork(l, x, r), x);
            Ordered(k) && Keys(k) == Keys(l) + Keys(r) && Size(k) == Size(l) + Size(r)
  {
    if l.Fork? && r.Fork? {
      HeirIsOrdered(l, x, r);
    }
  }

  lemma {:induction false} RemovedIsDifference(k: KeyTree, t: int)
    requires Ordered(k)
    ensures Ordered(Removed(k, t)) && Keys(Removed(k, t)) == Keys(k) - {t}
    ensures Size(Removed(k, t)) == Size(k) - if t in Keys(k) then 1 else 0
  {
    if k.Fork? {
      if t > k.key {
        RemovedIsDifference(k.right, t);
        assert t !in Keys(k.left);
      } else if t < k.key {
        RemovedIsDifference(k.left, t);
        assert t !in Keys(k.right);
      } else {
        RemovedAtTop(k.left, k.key, k.right);
        assert t !in Keys(k.left) + Keys(k.right);
      }
    }
  }

  lemma {:induction false} RemovedAbsent(k: KeyTree, t: int)
    requires Ordered(k) && t !in Keys(k)
    ensures Removed(k, t) == k
  {
    if k.Fork? {
      RemovedAbsent(k.left, t);
      RemovedAbsent(k.right, t);
    }
  }

  /** Deleting what was just added restores the very same tree and never spoils a link. */
  lemma {:induction false} RemoveUndoesInsert(k: KeyTree, t: int)
    requires Ordered(k) && t !in Keys(k)
    ensures Removed(Inserted(k, t), t) == k && KeepsLinks(Inserted(k, t), t)
  {
    InsertedAtLeaf(k, t);
  }

  lemma {:induction false} InsertedAtLeaf(k: KeyTree, t: int)
    requires Ordered(k) && t !in Keys(k)
    ensures Find(Inserted(k, t), t) == Fork(Nil, t, Nil) && Removed(Inserted(k, t), t) == k
  {
    match k
    case Nil =>
    case Fork(l, x, r) =>
      if t > x { InsertedAtLeaf(r, t); } else { InsertedAtLeaf(l, t); }
  }

  /** On a tree whose links are exact, the guard says when `del` returns and leaves them exact. */
  lemma KeepsLinksExactly(k: KeyTree, t: int)
    ensures !ReadsStale(k, {}, t)
    ensures KeepsLinks(k, t) <==> !SuccessorIsBareChild(k, t) && StaleAfter(k, {}, t, false) == {}
    ensures StaleAfter(k, {}, t, true) == {}
  {
  }

  lemma RemovedSize(k: KeyTree, t: int)
    requires Ordered(k)
    ensures Ordered(Removed(k, t)) && (Find(k, t).Nil? ==> Removed(k, t) == k)
    ensures Size(Removed(k, t)) + (if Find(k, t).Fork? then 1 else 0) == Size(k)
  {
    FindIsMembership(k, t);
    RemovedIsDifference(k, t);
    if t !in Keys(k) {
      RemovedAbsent(k, t);
    }
  }
}
