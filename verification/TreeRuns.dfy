/**
 Whole runs of the binary search tree of algorithm/tree.hpp against a finite set of keys.
 */
module TreeRuns {
  import opened KeyTrees
  import opened BinaryTrees
  import opened Shapes

  datatype Call = AddKey(t: int) | DelKey(t: int) | SearchKey(t: int) | AskSize

  datatype Answer = Done | Found(found: bool) | Count(n: nat)

  /** What a finite set answers. */
  function SetAnswer(keys: set<int>, c: Call): (set<int>, Answer) {
    match c
    case AddKey(t) => (keys + {t}, Done)
    case DelKey(t) => (keys - {t}, Found(t in keys))
    case SearchKey(t) => (keys, Found(t in keys))
    case AskSize => (keys, Count(|keys|))
  }

  function SetAnswers(keys: set<int>, calls: seq<Call>): seq<Answer>
    decreases |calls|
  {
    if calls == [] then [] else
    var (keys', a) := SetAnswer(keys, calls[0]);
    [a] + SetAnswers(keys', calls[1..])
  }

  function TreeAfter(k: KeyTree, c: Call): KeyTree {
    match c
    case AddKey(t) => Inserted(k, t)
    case DelKey(t) => Removed(k, t)
    case SearchKey(_) => k
    case AskSize => k
  }

  /** Which keys have a stale parent after a call of the code as it stands. */
  function StaleNext(k: KeyTree, stale: set<int>, c: Call): set<int> {
    if c.DelKey? then StaleAfter(k, stale, c.t, false) else stale
  }

  /** The call follows no stale parent and does not meet null at line 137. */
  predicate SafeCall(k: KeyTree, stale: set<int>, c: Call) {
    c.DelKey? ==> !ReadsStale(k, stale, c.t) && !SuccessorIsBareChild(k, c.t)
  }

  /** No call of the run meets null or a stale parent. */
  predicate Safe(k: KeyTree, stale: set<int>, calls: seq<Call>)
    decreases |calls|
  {
    calls != [] ==>
      && SafeCall(k, stale, calls[0])
      && Safe(TreeAfter(k, calls[0]), StaleNext(k, stale, calls[0]), calls[1..])
  }

  /** The `n`-th call of the run is the first that is not safe. */
  predicate BreaksOff(k: KeyTree, stale: set<int>, calls: seq<Call>, n: nat)
    requires n < |calls|
    decreases n
  {
    if n == 0 then !SafeCall(k, stale, calls[0])
    else
      && SafeCall(k, stale, calls[0])
      && BreaksOff(TreeAfter(k, calls[0]), StaleNext(k, stale, calls[0]), calls[1..], n - 1)
  }

  /** Every `del` of the run leaves all links exact. */
  predicate Clean(k: KeyTree, calls: seq<Call>)
    decreases |calls|
  {
    calls != [] ==>
      && (calls[0].DelKey? ==> KeepsLinks(k, calls[0].t))
      && Clean(TreeAfter(k, calls[0]), calls[1..])
  }

  /** Runs that leave all links exact are safe, but not they alone. */
  lemma {:induction false} CleanIsSafe(k: KeyTree, calls: seq<Call>)
    requires Ordered(k) && Clean(k, calls)
    ensures Safe(k, {}, calls)
    decreases |calls|
  {
    if calls != [] {
      var c := calls[0];
      TreeStaysOrdered(k, c);
      if c.DelKey? {
        KeepsLinksExactly(k, c.t);
      }
      CleanIsSafe(TreeAfter(k, c), calls[1..]);
    }
  }

  lemma TreeStaysOrdered(k: KeyTree, c: Call)
    requires Ordered(k)
    ensures Ordered(TreeAfter(k, c))
  {
    match c
    case AddKey(t) => InsertedIsUnion(k, t);
    case DelKey(t) => RemovedIsDifference(k, t);
    case _ =>
  }

  method Step(tree: BinaryTree, c: Call, relink: bool) returns (returned: bool, a: Answer)
    requires tree.Valid() && (relink ==> tree.stale == {})
    modifies tree, Nodes(tree.shape)
    ensures returned <==> relink || SafeCall(View(old(tree.shape)), KeysOf(old(tree.stale)), c)
    ensures returned ==> tree.Valid() && forall n <- Nodes(tree.shape) :: n in old(Nodes(tree.shape)) || fresh(n)
    ensures returned ==> View(tree.shape) == TreeAfter(View(old(tree.shape)), c)
    ensures returned && !relink ==>
              KeysOf(tree.stale) == StaleNext(View(old(tree.shape)), KeysOf(old(tree.stale)), c)
    ensures returned && relink ==> tree.stale == {}
    ensures returned ==> (Keys(View(tree.shape)), a) == SetAnswer(Keys(View(old(tree.shape))), c)
  {
    ghost var nodes := Nodes(tree.shape);
    assert allocated(nodes);
    returned := true;
    match c
    case AddKey(t) =>
      InsertedIsUnion(View(tree.shape), t);
      tree.Add(t);
      a := Done;
    case DelKey(t) =>
      RemovedIsDifference(View(tree.shape), t);
      KeepsLinksExactly(View(tree.shape), t);
      var outcome := tree.Del(t, relink);
      returned := outcome.Returned?;
      a := if returned then Found(outcome.found) else Done;
      assert returned && relink ==> forall n <- tree.stale :: n.m_data in KeysOf(tree.stale);
    case SearchKey(t) =>
      var found, _, path, sub := tree.Search(t);
      a := Found(found);
    case AskSize =>
      var n := tree.GetSize();
      a := Count(n);
  }

  lemma AnswersFirst(keys: set<int>, calls: seq<Call>, a: Answer, rest: seq<Answer>)
    requires calls != [] && a == SetAnswer(keys, calls[0]).1
    ensures [a] + rest <= SetAnswers(keys, calls) <==> rest <= SetAnswers(SetAnswer(keys, calls[0]).0, calls[1..])
    ensures [a] + rest == SetAnswers(keys, calls) <==> rest == SetAnswers(SetAnswer(keys, calls[0]).0, calls[1..])
  {
    var others := SetAnswers(SetAnswer(keys, calls[0]).0, calls[1..]);
    assert SetAnswers(keys, calls) == [a] + others;
    assert ([a] + rest)[1..] == rest && ([a] + others)[1..] == others;
  }

  method RunFrom(tree: BinaryTree, calls: seq<Call>, relink: bool) returns (completed: bool, answers: seq<Answer>)
    requires tree.Valid() && (relink ==> tree.stale == {})
    modifies tree, Nodes(tree.shape)
    ensures completed <==> relink || Safe(View(old(tree.shape)), KeysOf(old(tree.stale)), calls)
    ensures completed ==> answers == SetAnswers(Keys(View(old(tree.shape))), calls)
    ensures answers <= SetAnswers(Keys(View(old(tree.shape))), calls)
    ensures !completed ==>
              |answers| < |calls| &&
              BreaksOff(View(old(tree.shape)), KeysOf(old(tree.stale)), calls, |answers|)
    decreases |calls|
  {
    if calls == [] {
      return true, [];
    }
    ghost var k, stale := View(tree.shape), KeysOf(tree.stale);
    var returned, a := Step(tree, calls[0], relink);
    if !returned {
      return false, [];
    }
    var rest;
    completed, rest := RunFrom(tree, calls[1..], relink);
    answers := [a] + rest;
    AnswersFirst(Keys(k), calls, a, rest);
  }

  /**
   Any run from an empty tree, whatever its root pointer starts out as. With the repairs it
   answers as a finite set does. As the code stands it gets to its end, and then answers as a
   finite set does, if and only if it is safe; up to the call it breaks off at its answers are
   right too.
   */
  method Run(uninitialised: Node?, calls: seq<Call>, relink: bool) returns (completed: bool, answers: seq<Answer>)
    ensures completed <==> relink || Safe(Nil, {}, calls)
    ensures completed ==> answers == SetAnswers({}, calls)
    ensures answers <= SetAnswers({}, calls)
    ensures !completed ==> |answers| < |calls| && BreaksOff(Nil, {}, calls, |answers|)
  {
    var tree := new BinaryTree(uninitialised);
    assert KeysOf({}) == {};
    completed, answers := RunFrom(tree, calls, relink);
  }

  lemma SafeCons(k: KeyTree, stale: set<int>, c: Call, rest: seq<Call>)
    ensures Safe(k, stale, [c] + rest) <==>
            SafeCall(k, stale, c) && Safe(TreeAfter(k, c), StaleNext(k, stale, c), rest)
    ensures Clean(k, [c] + rest) <==>
            (c.DelKey? ==> KeepsLinks(k, c.t)) && Clean(TreeAfter(k, c), rest)
  {
    assert ([c] + rest)[1..] == rest;
  }

  /**
   The chain 50, 30, 20. Once 30 is deleted, 20 has a stale parent. Searching for 20 does not
   read it and deleting 50 sets it right, so such a run is safe although it is not clean;
   deleting 20 at once follows it. Deleting 50 from 50, 30, 70 dereferences null.
   */
  lemma RunExamples()
    ensures var chain := Fork(Fork(Fork(Nil, 20, Nil), 30, Nil), 50, Nil);
            && chain == Inserted(Inserted(Inserted(Nil, 50), 30), 20)
            && Safe(chain, {}, [DelKey(30)] + ([SearchKey(20)] + ([DelKey(50)] + ([DelKey(20)] + []))))
            && !Clean(chain, [DelKey(30)] + [])
            && !Safe(chain, {}, [DelKey(30)] + ([DelKey(20)] + []))
    ensures !Safe(Inserted(Inserted(Inserted(Nil, 50), 30), 70), {}, [DelKey(50)])
  {
    var single := Fork(Nil, 20, Nil);
    var spliced := Fork(single, 50, Nil);
    var chain := Fork(Fork(single, 30, Nil), 50, Nil);
    assert Inserted(Inserted(Nil, 50), 30) == Fork(Fork(Nil, 30, Nil), 50, Nil);
    assert Removed(chain, 30) == spliced && StaleNext(chain, {}, DelKey(30)) == {20};
    SafeCons(single, {}, DelKey(20), []);
    SafeCons(spliced, {20}, DelKey(50), [DelKey(20)] + []);
    SafeCons(spliced, {20}, SearchKey(20), [DelKey(50)] + ([DelKey(20)] + []));
    SafeCons(chain, {}, DelKey(30), [SearchKey(20)] + ([DelKey(50)] + ([DelKey(20)] + [])));
    SafeCons(chain, {}, DelKey(30), []);
    SafeCons(spliced, {20}, DelKey(20), []);
    SafeCons(chain, {}, DelKey(30), [DelKey(20)] + []);
  }
}
