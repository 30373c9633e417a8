# Verified models of cpp_prac

This project models six parts of the repository and proves what they promise, over all inputs,
all runs and all interleavings. Where the code falls short of its promise the model keeps the
code, gives an input that shows it, and proves the exact condition under which the promise holds.

`dafny verify dfyconfig.toml` checks everything.

## The parts

**Binary search tree** (`KeyTrees`, `Shapes`, `BinaryTrees`, `TreeRuns`). Linked nodes with parent
pointers, as in `algorithm/tree.hpp`. A shape says which node stands where; `Down` ties the child
pointers to it, `Up` the parent pointers. Every operation is specified on the tree of keys and,
through it, on a finite set. `del` takes a flag: `relink == false` is the code as it stands, `relink
== true` adds three repairs (a guard at line 137, and relinking the only child after lines 91/93 and
104/106). As it stands, a deletion that splices a single child below the root leaves that child with
a parent pointer to the deleted node. The model keeps `freed`, the nodes given to `delete` (it
stands for the allocator), and `stale`, the nodes whose parent pointer leads there; later deletions
may set such a pointer right again, never read it, or follow it. A run of the code as it stands gets
to its end and answers as a finite set does if and only if it is `Safe`: no `del` follows a stale
parent, and none meets a bare right child as successor. `m_root` has no initialiser, so the
constructor takes an arbitrary pointer for it; on an empty tree only `travPrint` and the destructor
read it.

**Calculator** (`Expressions`, `Calculators`, `Parsing`, `Precedence`, `Malformed`, `Sessions`,
`Numerals`). The machine answers every string, well formed or not, with a value, a failure, an
exception or a stated fault (buffer overrun, `top()` of an empty stack), and every call says what it
leaves to the next one. Values are kept as the arithmetic that was done, so the parsing results hold
under any rounding. The calculator inverts the printer of the expression grammar; a written
expression is answered with its value exactly when its numerals fit. Chains of `*` and `/` nest to
the right, so over the reals the calculator agrees with ordinary arithmetic, on all numerals,
exactly when `/` is only ever the last operator of its term. For every other expression the proof
builds numerals on which it is wrong (`8/4/2` gives 4). Outside the grammar, the reduction of the
stack is given in closed form: when it throws and what, when it reads an empty stack (`2*-3`,
`-1+2`), and when one answer is left over (`(-1` is answered, `(-1)` throws). `main` goes on with
the same calculator after a failed call, so a correct expression is not answered with its value
whatever was typed before: it is exactly after the texts that `Sessions` names. `Numerals` says the
same of numbers and signs as they are typed, without the words of the model.

**Blocking queue and thread pool** (`BlockingQueues`, `ThreadPools`, `PoolResults`, `PoolProgress`).
The pool is a state machine: one owner thread, any number of workers, each critical section, shared
access or task one step, and `Exec` runs any list of steps, so a statement about every list is one
about every interleaving. Interrupt flags are sticky and may land at any point. The header says
`shutdown` abandons queued tasks (`nnero/thread_pool.hpp:34`); the code drains them, and the model
follows the code. Draining holds for every run exactly when the core size is at least one or the
queue can hold nothing. (`hardware_concurrency()` may be zero, and a large `unsigned` core size
becomes negative.)

**Timing wheel** (`TimeWheels`, `TimerRuns`, `TimerPools`, `TimerProgress`). Ten slots with rotation
counters refine a plain list of deadlines. Machine integers are modelled: `addTask` places a task
right exactly when a short delay does not meet index 9 (line 36 would index past the slots) and a
long one does not carry the tick number to 2^32, with one lucky band near 5 * 2^32. The conversions
of lines 39 and 41 are taken as two's complement wrap-around. Wheel and one-worker pool together run
the tasks by due tick and, within a tick, in the order added.

**Sorting and searching** (`Sorting`, `MergeSorting`, `Searching`). Three sorts with their
counters; `mergeSort`, whose merge drops the unread right suffix, sorts exactly the inputs where
at every split the right half has the larger least element; `binarySearch` leaves the array
exactly for targets above the first element. The flags `append` and `guarded` stand for the two
repairs.

**Text queries** (`Splitting`, `TextQueries`, `QueryQueues`). Queries such as `a & b | c` over
numbered lines. A rejected query leaves commands in the queue, on top of which a later one may be
accepted; the model evaluates any queue and says when that runs out of commands and when the result
is in order. (`main` itself stops at the first rejection.)

Conventions: a class of the source is a class here, its vectors, stacks and queues are `seq`
fields, the digit buffer and the ten slots are arrays. Long method bodies of the source are cut
into several methods, each naming its lines. Assumptions on the threads: one thread submits,
tasks do not throw and do not submit, and reads of the shared flags are atomic. `TimeWheel::close`
joins the tick thread before shutting the pool down, which gives the timer its one submitter.

## Model

| member | source | states |
|---|---|---|
| KeyTrees.InsertedIsUnion | algorithm/tree.hpp:36-65 | `add` inserts the key or, for a repeated one, changes nothing; the search order is kept |
| KeyTrees.RemovedIsDifference | algorithm/tree.hpp:67-166 | `del` removes that key and no other in all its cases, keeps the order, and the size drops by one only for a key that was there |
| KeyTrees.HeirIsOrdered | algorithm/tree.hpp:114-136 | the in-order successor may stand over both subtrees of the deleted node |
| KeyTrees.RemoveUndoesInsert | algorithm/tree.hpp:36-166 | deleting a key just added restores the very same tree and meets the guard for exact links |
| KeyTrees.FindIsMembership | algorithm/tree.hpp:168-193 | the walk stops at the key exactly when the key is there, after at most as many nodes as the tree is high |
| KeyTrees.InOrderIsSorted | algorithm/tree.hpp:206-212 | the in-order print is ascending and misses no key |
| KeyTrees.SizeIsCardinality | algorithm/tree.hpp:201-203 | the node count is the cardinality of the key set |
| Shapes.ShapeIsUnique | algorithm/tree.hpp:16-19 | the child pointers of the heap determine the shape |
| Shapes.OrderKeepsApart | algorithm/tree.hpp:16-19 | search order alone makes all nodes distinct, so the tree is acyclic and its subtrees disjoint |
| Shapes.PlugLinks | algorithm/tree.hpp:16-19 | child and parent links of a tree split exactly into those around a hole and those of the subtree in it |
| Shapes.GoesStale | algorithm/tree.hpp:87-112 | where only a child pointer is spliced, the parent pointer of the child leads to the deleted node, and all others stay what they were |
| Shapes.PlugView | algorithm/tree.hpp:42-64 | changing the subtree a walk ends at is inserting or removing in the whole tree |
| Shapes.SpineEndIsMin | algorithm/tree.hpp:114-133 | the end of the left spine holds the least key, and cutting it out leaves the rest |
| Shapes.LengthWithinHeight | algorithm/tree.hpp:173-192 | no node lies deeper than the tree is high |
| Shapes.HeightIsReached | algorithm/tree.hpp:16-19 | and some node lies as deep |
| BinaryTrees.BinaryTree.constructor | algorithm/tree.hpp:29 | an empty tree is valid whatever its uninitialised root pointer is, and keeps that pointer |
| BinaryTrees.BinaryTree.Walk | algorithm/tree.hpp:42-64 | the shared walk ends at the key's node or at the node lacking the next child, and counts the nodes on its path, both ends included |
| BinaryTrees.BinaryTree.Add | algorithm/tree.hpp:36-65 | refines `Inserted`, on any tree, and leaves all parent pointers as they are, stale ones included |
| BinaryTrees.BinaryTree.Search | algorithm/tree.hpp:168-193 | answers membership; the printed counter is the depth of the node the walk ends at, the root being at depth one |
| BinaryTrees.BinaryTree.GetSize | algorithm/tree.hpp:201-203 | `m_size` is the cardinality of the key set |
| BinaryTrees.BinaryTree.TravPrint | algorithm/tree.hpp:195-212 | prints exactly the keys, ascending; goes astray exactly on an empty tree whose root pointer is not null |
| BinaryTrees.BinaryTree.Splice | algorithm/tree.hpp:138-149 | whatever hangs from the parent, or the root, is replaced and nothing else moves |
| BinaryTrees.BinaryTree.CutSuccessor | algorithm/tree.hpp:114-133 | the least node of the right subtree is cut out and the rest stays linked both ways, unless that node has a stale parent, which is then followed |
| BinaryTrees.BinaryTree.Promote | algorithm/tree.hpp:134-137 | the successor takes both subtrees, and crashes exactly when the right one is now empty and line 137 unguarded |
| BinaryTrees.BinaryTree.Reseat | algorithm/tree.hpp:76-111 | an only child moves up; its parent pointer is set right with the repair or at the root, and else still leads to the deleted node |
| BinaryTrees.BinaryTree.Del | algorithm/tree.hpp:67-166 | on any tree, stale parents or not: returns if and only if it follows no stale parent and, as it stands, the successor is no bare right child; then answers membership, refines `Removed`, and the stale parents are those of `StaleAfter` |
| TreeRuns.Run | algorithm/tree.hpp:36-203 | a run from an empty tree gets to its end if and only if it has the repairs or is `Safe`; then it answers as a finite set, and up to where it breaks off, the first unsafe call, its answers are right too |
| TreeRuns.CleanIsSafe | algorithm/tree.hpp:67-166 | runs whose deletions leave all links exact are safe |
| TreeRuns.RunExamples | algorithm/tree.hpp:87-137 | in a spliced chain, searching and deleting the root are safe, deleting the child with the stale parent is not; nor is deleting 50 from 50, 30, 70 |
| Calculators.Calculator.BufNumber | prac/cal.cpp:107-110 | pushes a digit, or overruns the 64 bytes |
| Calculators.Calculator.EvalNumber | prac/cal.cpp:112-120 | turns the buffered digits into an operand, with overrun and out-of-range as outcomes |
| Calculators.Calculator.EvalStack | prac/cal.cpp:128-162 | the reduction loop computes `Reduce`, throws included |
| Calculators.Calculator.Feed | prac/cal.cpp:55-89 | one turn of the character loop |
| Calculators.Calculator.Eval | prac/cal.cpp:51-105 | the whole call, for every string, and exactly what it leaves to the next call: a clean calculator after a value or an error, the digits after an unknown symbol, the reduced stack after an exception |
| Parsing.ReduceTerm | prac/cal.cpp:128-162 | a pending chain of `*` and `/` reduces to its right-nested value |
| Parsing.ReducePending | prac/cal.cpp:128-162 | whatever is pending above a frame reduces to the one value of its expression, taking the parenthesis along after `)` |
| Parsing.EvalStackOnPending | prac/cal.cpp:128-162 | the size test skips only what is already reduced |
| Parsing.ReadsTerm | prac/cal.cpp:51-89 | reading a term leaves its factors and operators pending |
| Parsing.ReadsExpr | prac/cal.cpp:51-89 | the stack-frame invariant: reading an expression in a frame leaves exactly its pending part |
| Parsing.EvalInvertsPrint | prac/cal.cpp:51-105 | every printed expression, with blanks anywhere, is answered with its own value: `+ -` nested left, `* /` nested right, parentheses respected |
| Parsing.AnsweredExactly | prac/cal.cpp:51-120 | a written expression is answered with its value exactly when all numerals fit; otherwise a numeral stops it |
| Parsing.NotationIsUnambiguous | prac/cal.cpp:51-105 | one text has one value |
| Numerals.NotationIs | prac/cal.cpp:23-54 | which characters are digits, the four operators, parentheses, blanks and unknown symbols |
| Numerals.NumberIsAnswered | prac/cal.cpp:107-120 | the decimal numeral of every number up to 2147483647 is answered with that number, a larger one makes `std::stoi` throw, and leading zeros change nothing while the buffer holds them |
| Numerals.EveryNumberIsAnswered | prac/cal.cpp:51-120 | every `int` that is not negative, typed in, is answered with itself |
| Numerals.OperationsAnswered | prac/cal.cpp:164-185 | `a+b`, `a-b`, `a*b` and `a/b`, typed in, are answered with the sum, the difference, the product and the quotient |
| Precedence.Agrees | prac/cal.cpp:128-185 | with `/` only last in each term, the value over the reals is that of ordinary arithmetic, undefinedness included |
| Precedence.Break | prac/cal.cpp:128-185 | every other expression has fitting numerals on which the two differ |
| Precedence.AgreesExactly | prac/cal.cpp:128-185 | agreement on all numerals holds if and only if `/` is nowhere followed by another `*` or `/` in its term |
| Precedence.CalculatorIsRight | prac/cal.cpp:51-185 | the same of the texts typed in: all texts of this shape are answered with what arithmetic says if and only if `/` is only last |
| Precedence.RepeatedDivisionExample | prac/cal.cpp:51-185 | `8/4/2` is answered with 4, where arithmetic says 1 |
| Malformed.ReduceExactly | prac/cal.cpp:128-162 | the reduction in closed form, for every stack: it reads an empty stack, meets a non-operand, a non-operator or a missing parenthesis, or leaves one element, exactly for the stacks named |
| Malformed.StopsExactly | prac/cal.cpp:51-105 | a call stops if and only if it stops at some place of its text, where everything before can be read |
| Malformed.HaltsExactly | prac/cal.cpp:51-105 | a call stops in a reduction if and only if the stack handed over at some place of its text stops it |
| Malformed.LeftOperandMissingExactly | prac/cal.cpp:153 | line 153 reads an empty stack if and only if, at some place of the text, the stack has an even number of elements, an operand on top, operators between and no `(` at the bottom |
| Malformed.ResultMissingExactly | prac/cal.cpp:102 | line 102 reads an empty stack if and only if the text is blank |
| Malformed.BufferOverrunExactly | prac/cal.cpp:107-114 | for every text: the code writes past `numberBuf` if and only if it has read sixty-four digits in a row, before anything else stops it, and comes to the end or to anything but an unknown symbol |
| Malformed.OutOfRangeExactly | prac/cal.cpp:112-117 | for every text: `std::stoi` throws if and only if a shorter run of digits above the largest `int` comes to the end or to a symbol |
| Malformed.UnknownSymbolExactly | prac/cal.cpp:56-64 | for every text: an unknown symbol is reported if and only if everything before it can be read |
| Malformed.AnsweredExactlyWhen | prac/cal.cpp:91-104 | a text is answered if and only if it is read to its end and leaves one of the stacks named, be it an expression or not |
| Malformed.SignedExpression | prac/cal.cpp:128-162 | a sign before an expression is an error before a single factor and reads an empty stack before any other expression |
| Malformed.DoubledOperator | prac/cal.cpp:128-162 | two operators in a row between factors read an empty stack |
| Malformed.SignInParens | prac/cal.cpp:128-162 | a sign behind an open parenthesis is answered as if a zero stood before it; closing the parenthesis throws and leaves the value on the stack |
| Malformed.MalformedExamples | prac/cal.cpp:51-162 | `2*-3` and `-1+2` read an empty stack, `-1` is an error, `(-1` is answered, `(-1)` throws |
| Malformed.LoneOperator | prac/cal.cpp:91-104 | a lone operator is answered with zero |
| Sessions.RightExactlyWhenFresh | prac/cal.cpp:51-105 | a calculator answers every expression with its value if and only if its stack and its buffer are empty |
| Sessions.NextIsRightExactly | prac/cal.cpp:51-162 | whatever text was typed before, short of undefined behaviour: every expression is then answered with its value if and only if that text came to a value or an error, to an unknown symbol with no digits before it, or to a non-operator at the second place from the bottom |
| Sessions.ResidueExactly | prac/cal.cpp:128-162 | an exception in the reduction leaves an empty stack if and only if it met that non-operator there |
| Sessions.AnswersLeaveFresh | prac/cal.cpp:91-104 | after a value or an error the calculator is as good as new |
| Sessions.AnswersHeal | prac/cal.cpp:187-208 | whatever the session, after a call that comes to a value or an error every expression is answered with its value |
| Sessions.LeftoverIsGlued | prac/cal.cpp:56-68 | digits before an unknown symbol are glued to the next expression |
| Sessions.GluedAfterUnknown | prac/cal.cpp:54-68 | for all digits, unknown symbols and later texts: the second call answers as if the digits stood before its text |
| Sessions.ThrownExamples | prac/cal.cpp:128-162 | after `(-1)`, which throws, a single factor is an error; `1)2` throws too and leaves the calculator as good as new |
| BlockingQueues.OutcomeExact | nnero/bqueue.hpp:37-88 | when each operation succeeds, and that a failing one changes nothing |
| BlockingQueues.QueueIsFifo | nnero/bqueue.hpp:37-88 | over any operations: contents before plus what was put in equals what was taken out plus contents after, in order, and the bound holds |
| BlockingQueues.AddsFill | nnero/bqueue.hpp:60-68 | adding one after the other takes what there is room for, from the front, and no more |
| BlockingQueues.PollsDrain | nnero/bqueue.hpp:37-46 | polling one after the other gives the contents in order until nothing is left |
| BlockingQueues.BlockingQueue.Poll | nnero/bqueue.hpp:37-46 | takes the head, so that it and what stays are what was there; throws on an empty queue |
| BlockingQueues.BlockingQueue.Take | nnero/bqueue.hpp:48-58 | one predicate check: interrupted first, blocked exactly when empty, else the head |
| BlockingQueues.BlockingQueue.Add | nnero/bqueue.hpp:60-68 | appends, or refuses when full |
| BlockingQueues.BlockingQueue.Put | nnero/bqueue.hpp:71-78 | appends, or throws when full |
| BlockingQueues.BlockingQueue.Offer | nnero/bqueue.hpp:80-88 | one predicate check: interrupted first, blocked exactly when full, else appended |
| ThreadPools.Reachable | nnero/thread_pool.cpp:22-96 | in every reachable state: accepted tasks are the dequeued ones then the queue; each dequeued one is done or held by one worker; the count is exact; shutdown is in order |
| ThreadPools.HeldByWorker | nnero/thread_pool.cpp:68-96 | a worker's step neither loses nor duplicates a task |
| ThreadPools.OrderedByWorker | nnero/thread_pool.cpp:68-83 | a worker that saw the queue empty in the drain phase is never proved wrong later |
| PoolResults.ShutdownDrains | nnero/thread_pool.cpp:22-48 | when `shutdown` returns the queue is empty, no worker lives, and every accepted task has run exactly once |
| PoolResults.WithoutWorkersTasksAreLost | nnero/thread_pool.cpp:6-15 | with a core size below one an accepted task stays in the queue |
| PoolResults.DrainsExactly | nnero/thread_pool.cpp:6-66 | all runs drain if and only if the core size is at least one or the queue holds nothing |
| PoolResults.WorkersAdvance | nnero/thread_pool.cpp:68-96 | once `shutdown` waits, every step of a living worker lowers the measure |
| PoolResults.WorkersAreBounded | nnero/thread_pool.cpp:68-96 | so the workers take only boundedly many steps, under any schedule |
| PoolResults.NoWorkerLeftMeansCountZero | nnero/thread_pool.cpp:32-38 | when no worker can move, the count is zero and the wait ends |
| PoolResults.ShutdownCanReturn | nnero/thread_pool.cpp:22-48 | from every state in which `shutdown` waits it can still return, provided that a waiting worker can always check its predicate again, which a lost wake-up in the code can prevent |
| PoolResults.InterruptsAreSticky | nnero/nthread.cpp:14-75 | a set interrupt flag stays set |
| PoolResults.InterruptsTheLiving | nnero/thread_pool.cpp:22-31 | in every reachable state: until the last interrupt is set no started thread has ended, so no flag of an ended thread is touched |
| PoolResults.CountIsLive | nnero/thread_pool.cpp:50-83 | `m_worker_cnt` counts the started workers that have not left, stays within the core size, and never falls before shutdown |
| PoolProgress.WorkersStarted | nnero/thread_pool.cpp:50-66 | in every reachable state, before, during and after shutdown: as many workers have been started as there were calls of `execute`, up to the core size |
| PoolProgress.ExecuteSubmits | nnero/thread_pool.cpp:50-59 | `execute` puts its task at the end of the queue, or is refused by a full one |
| PoolProgress.TasksGetRun | nnero/thread_pool.cpp:50-87 | while the pool is open its workers alone can run every accepted task, from every reachable state between calls |
| PoolProgress.PoolCanClose | nnero/thread_pool.cpp:22-48 | from every reachable state the call under way can be finished, `shutdown` called, and its end reached, given that a waiting worker can always check its predicate again |
| PoolProgress.RanTimesIs | nnero/thread_pool.cpp:68-96 | how often a task has run is its multiplicity in the list of what has run |
| PoolResults.OneWorkerKeepsOrder | nnero/thread_pool.cpp:50-96 | with one worker tasks finish in the order accepted |
| TimeWheels.CurrentSlot | nnero/time_wheel.cpp:66-79 | in the current slot rotation zero means due now, and what remains is right for the next tick |
| TimeWheels.OtherSlots | nnero/time_wheel.cpp:61-65 | a tick does not disturb the other slots |
| TimeWheels.PlacementExact | nnero/time_wheel.cpp:39-41 | slot and rotation of a long delay are right if and only if the delay is one of those named, under 32- and 64-bit conversion |
| TimeWheels.PushKeeps | nnero/time_wheel.cpp:34-47 | a pushed task represents its deadline if and only if slot and rotation are the deadline's |
| TimeWheels.PassKeeps | nnero/time_wheel.cpp:61-79 | one pass fires what is due and keeps the wheel right |
| TimeWheels.TimeWheel.AddTask | nnero/time_wheel.cpp:34-47 | says exactly when it indexes past the slots and exactly when the wheel gains the deadline it should |
| TimeWheels.TimeWheel.Tick | nnero/time_wheel.cpp:61-79 | fires the tasks due on this tick, in the order added, and no others |
| TimerRuns.Run | nnero/time_wheel.cpp:34-82 | through any adds, ticks and wraps, at any times, the wheel hands over on each tick what a plain list of deadlines would, and in all each task as often as it fell due: none twice, none forgotten |
| TimerRuns.EachRunsOnce | nnero/time_wheel.cpp:34-82 | listing tick by tick names each task as often as it has deadlines before that tick |
| TimerRuns.TimesIs | nnero/time_wheel.cpp:61-79 | how often a task has run is its multiplicity in the log |
| TimerRuns.FiringsAreDue | nnero/time_wheel.cpp:61-79 | without the times, a log lists the tasks by due tick and, within a tick, in the order added |
| TimerRuns.DueAtConcat | nnero/time_wheel.cpp:66-79 | what falls due on one tick is listed in the order added |
| TimerRuns.FiredExactly | nnero/time_wheel.cpp:61-79 | what a run fires, and when: each deadline whose tick has come, at the time of that tick, and nothing else |
| TimerRuns.FiringError | nnero/time_wheel.cpp:34-82 | with ticks every 10 ms, the deadline list fires the task of each call whose tick has come: for a delay of at most 10 ms after 10 to 20 ms, for any other early by no more than its last digit and less than 10 ms late |
| TimerRuns.RunOnTime | nnero/time_wheel.cpp:34-82 | the same of the log of the wheel: each call whose tick has come is answered so promptly, and nothing is fired that no call asked for |
| TimerRuns.PromptMeans | nnero/time_wheel.cpp:34-82 | so a delay of at least 10 ms is met within 10 ms, and a multiple of 10 never early |
| TimerRuns.DelayFires | nnero/time_wheel.cpp:34-79 | on the wheel, counting passes of `tick`: a task is fired by the second pass for a delay of at most 10, and else by the pass one above a tenth of its delay, and by none before |
| TimerRuns.ShortDelayExample | nnero/time_wheel.cpp:35-37 | after nine ticks a short delay, and only a short one, indexes past the slots |
| TimerRuns.LongDelayExample | nnero/time_wheel.cpp:39-41 | a delay of 42949672960 ms is put six ticks early |
| TimerPools.WheelAlwaysRight | nnero/time_wheel.cpp:34-82 | whatever the pool does meanwhile, the slots hold the deadlines and the index is that of the next tick, if `addTask` places each delay right |
| TimerPools.PoolPart | nnero/time_wheel.cpp:48-82 | the pool's part of a timer run is an interleaving of the pool |
| TimerPools.TimerRunsInOrder | nnero/time_wheel.cpp:34-82 | wheel and pool together: tasks run by due tick and order added, only refused ones are skipped, none early, and closing runs all the rest |
| TimerProgress.AddIsRecorded | nnero/time_wheel.cpp:34-47 | between passes, an add sets a deadline one tick ahead for a delay of at most 10 and a tenth of the delay ahead else |
| TimerProgress.NextTickComes | nnero/time_wheel.cpp:59-82 | as long as the timer is open, from every reachable state the next tick can come and all it fires be given to the pool |
| TimerProgress.TimerCanClose | nnero/time_wheel.cpp:48-54 | from every reachable state the timer can be closed and the close reach its end, given that a waiting worker can always check its predicate again |
| Sorting.SortedOnce | algorithm/sort.hpp:25-108 | descending permutations are unique, so the sorts agree |
| Sorting.SelectSort | algorithm/sort.hpp:25-46 | a descending permutation after exactly n(n-1)/2 comparisons, or a count of one for fewer than two elements |
| Sorting.BubbleSort | algorithm/sort.hpp:52-73 | a descending permutation after exactly n(n-1)/2 comparisons, or a count of one for fewer than two elements |
| Sorting.PairsClosed | algorithm/sort.hpp:31-44 | the closed form of the comparison count |
| Sorting.PivotSplits | algorithm/sort.hpp:84-106 | the two sides and the pivot are a permutation of the input |
| Sorting.QuickSort | algorithm/sort.hpp:79-108 | a descending permutation at a cost that is `QuickCost`, at least the sum of floor(log2 i) and at most n(n-1)/2 |
| Sorting.EqualElementsCost | algorithm/sort.hpp:79-108 | n(n-1)/2 is reached when all elements are equal |
| Sorting.OrderedElementsCost | algorithm/sort.hpp:79-108 | the sum of logarithms is reached when the input is in strict order already |
| MergeSorting.MergeConserves | algorithm/sort.hpp:133-155 | merged output and dropped suffix are a permutation of the halves |
| MergeSorting.MergeDescends | algorithm/sort.hpp:133-155 | merged output followed by the dropped suffix descends |
| MergeSorting.UnreadExactly | algorithm/sort.hpp:135-156 | nothing is dropped if and only if the right half ends above the left |
| MergeSorting.AppendingSorts | algorithm/sort.hpp:114-157 | with the suffix put back it sorts every input |
| MergeSorting.MergeSortExact | algorithm/sort.hpp:114-157 | as it stands it always descends, and sorts exactly the inputs that lose nothing at any split |
| MergeSorting.LossExample | algorithm/sort.hpp:114-157 | 2, 1 comes out as 2 |
| MergeSorting.SplitExample | algorithm/sort.hpp:119-129 | 1, 3, 2 comes out as 3, 1 |
| MergeSorting.Merge | algorithm/sort.hpp:133-155 | the nested loops compute the merge, the read position, and one count per push |
| MergeSorting.MergeSort | algorithm/sort.hpp:114-157 | refines the sort and raises the counter by `MergeCost`, at most 2n ceil(log2 n) |
| MergeSorting.MergeCostExactly | algorithm/sort.hpp:114-157 | the cost is at most twice the lengths of all calls, and reaches that exactly on the inputs that lose nothing |
| MergeSorting.MergeCostAtLeast | algorithm/sort.hpp:114-157 | it is at least those lengths and one push for each call that splits |
| MergeSorting.SplitTotalIs | algorithm/sort.hpp:119-129 | the lengths of all calls in closed form, n k + n - 2^k |
| MergeSorting.CeilLog2Exact | algorithm/sort.hpp:110-113 | the logarithm in that bound is the least exponent reaching n |
| Searching.SimpleSearch | algorithm/search.hpp:14-33 | the first index of the target, or absence, and the count |
| Searching.BinarySearch | algorithm/search.hpp:39-64 | finds the target exactly when present, leaves the array exactly for targets above the first element; an element is found in the turn of its index, anything else takes floor(log2 (n + 1)) turns or, if absent, one more at most |
| Searching.FoundInTurn | algorithm/search.hpp:49-61 | the turn in which an index is found depends on the index and the length alone |
| Searching.HalvingsExact | algorithm/search.hpp:35-38 | the bound on the turns is floor(log2 n) + 1 |
| Searching.SortAndSearch | algorithm/search.hpp:14-64 | after sorting, both searches agree on presence; the overrun is met exactly for targets above all elements |
| TextQueries.SelectMembers | prac/tq.cpp:17-31 | a list of matches holds exactly the matching lines with their numbers |
| TextQueries.SelectIncreases | prac/tq.cpp:17-31 | in increasing order of line number |
| TextQueries.IntersectionIsBoth | prac/tq.cpp:33-39 | `&` keeps the lines both sides match |
| TextQueries.UnionIsEither | prac/tq.cpp:41-48 | `\|` keeps the lines either side matches |
| TextQueries.SelectionExact | prac/tq.cpp:80-103 | the result increases and holds exactly the lines satisfying the left-to-right fold |
| TextQueries.WellFormedSelects | prac/tq.cpp:80-103 | evaluating a well-formed query by merging comes to the selection of its lines |
| TextQueries.TakenExact | prac/tq.cpp:51-74 | all words are taken exactly when words and operators alternate |
| Splitting.ReadsTheWords | prac/tq.cpp:52-56 | of words written with any blanks around them, at least one between two, exactly these words are read |
| Splitting.EveryTextIsWritten | prac/tq.cpp:52-56 | and every line is so written |
| TextQueries.ContainsIs | prac/tq.cpp:23 | a line matches a word if and only if the word is a part of it |
| TextQueries.SatisfiesIs | prac/tq.cpp:80-103 | `&` asks for both, `\|` for either, from left to right |
| TextQueries.TextQuery.OccursInFile | prac/tq.cpp:17-31 | appends the matching lines |
| TextQueries.Query.ParseExpr | prac/tq.cpp:51-78 | from any queue: accepts exactly alternating words that bring the number of commands to an odd one; a rejected call leaves its good prefix queued |
| TextQueries.Query.EvalCommands | prac/tq.cpp:80-103 | on any queue: each operator takes the next command as a word, other commands are appended; a well-formed query comes to the lines satisfying it; the queue ends empty |
| QueryQueues.ParsingKeepsSpaced | prac/tq.cpp:51-78 | a call, accepted or rejected, puts no operator at the front or behind another |
| QueryQueues.CallsKeepSpaced | prac/tq.cpp:51-78 | nor does any sequence of calls |
| QueryQueues.RightOperandMissingExactly | prac/tq.cpp:85-102 | evaluation reads the front of an empty queue if and only if the last command is an operator |
| QueryQueues.IncreasingExactly | prac/tq.cpp:80-103 | otherwise its result is in increasing order for every file if and only if behind each word that follows a word there is still an `&` |
| QueryQueues.WellFormedIsMended | prac/tq.cpp:80-103 | for well-formed queries it is |
| QueryQueues.RejectedExamples | prac/tq.cpp:51-78 | `a b` and then `c` are rejected and leave a and c in the queue |
| QueryQueues.AcceptedExamples | prac/tq.cpp:75-77 | on top of these `d` is accepted, and on top of a alone `c &` is |
| QueryQueues.LeftoverExamples | prac/tq.cpp:80-103 | the first of these queues comes to a list out of order for some file, the second reads the front of an empty queue |
| TextQueries.Ask | prac/tq.cpp:80-130 | parse and evaluate together, for every line of words however spaced: accepted exactly when they are a query, and then exactly the satisfying lines, increasing |

## Left out

- `network/*`, `prac/server.cpp`, `prac/client.cpp`, `sdl2/*`, `fltk_prac/*`: sockets and user interface, whose behaviour lies outside the repository.
- `nnero/logging.*`, `nnero/util.*` and all console output: formatting and clocks; the counters that are printed are kept as results.
- The remaining demos under `prac/`: they add no harder property.
- The tree's element type is `int`; the template asks only for an order and equality.
- Destructors, `freeNode` and reuse of freed memory: a new node is never one of those deleted before, and what a `del` does after it has followed a stale parent pointer is not modelled.
- References to popped stack elements in `prac/cal.cpp:134-154` are value copies.
- Rounding of doubles: `Precedence` reads values over the reals; the parsing results do not depend on it.
- The thread pool is modelled on values, as a protocol, and not as a class: what is not captured is the vector of `Nthread` objects, their moves and names, and `join` beyond waiting for a worker to have left.
- Condition-variable timing: `wakeUpAll` notifies without holding the queue's lock, so a waiting worker may re-check its predicate at any time and no particular wake-up is promised. The hang that a lost wake-up causes is not modelled.
- Several threads calling `execute`, tasks that throw or submit tasks, and `addTask` in the middle of one pass of `tick`.
- TimerPools.TimerRunsInOrder: asks that each delay be placed right; `TimeWheels.TimeWheel.AddTask` says exactly when it is.
- TimerRuns.FiringError: takes ticks as ideal, ten milliseconds apart.
- A rotation counter that wraps below the smallest `int`: such delays are never placed right and are not followed further.
- Reading the file in `prac/tq.cpp`: the file is a sequence of lines; `std::set_intersection` and `std::set_union` are the merging algorithms, also where a list handed to them is out of order.
