# Immutable binary tree: a verified Dafny model

This project models the C++ header `tree.h`. It defines a generic, immutable,
structurally shared binary tree `Tree<T>`: a handle that is either empty or
points to a node with a payload and two subtree handles. Its operations are:

- construction: `createEmptyNode`, `createValueNode`, the leaf form and the node form;
- inspection: `empty`, `value`, `left`, `right`;
- the bottom-up `fold`, and `height`, `size` and `is_bst` defined through it;
- the eager `map`, and `lazy_map`, whose nodes hold a value creator memoised by `Node::get_value`;
- `filter`, which threads a `can_be_rightmost` flag and a queue of deferred right subtrees through its recursion;
- `accumulate` and `apply`, parameterised by a traversal order (`inorder`, `preorder`, `postorder`).

The model has one module per part of the header:

- `Trees` (`tree.dfy`): the `Tree<T>` datatype, construction and accessors, `Fold`, `Height`, `Size`, the eager `Map`.
- `Traversal` (`traversal.dfy`): the orders as the closed enum `Order`, the visit sequence `Visit`, `accumulate` as a method threading its accumulator, and `apply` as a method calling a side-effecting operation object (`Sink`).
- `Bst` (`bst.dfy`): `is_bst` exactly as written, and the corrected check.
- `Filter` (`filter.dfy`): `filter_helper` as a pure function `FilterStep` returning the filtered tree and the queue it leaves.
  - It is also modelled as the method `FilterHelper`, which mutates a `TreeQueue` object; that method is proved equal to `FilterStep`.
  - The module also holds the corrected filter.
- `Lazy` (`lazy.dfy`): the memoising payload slot `Cell` (value, created flag, creator) and `lazy_map` over trees of slots.
  - A ghost counter records how often each creator has run.
- `Example` (`example.dfy`): the sample tree of the driver program `main.cpp`, with its expected metrics, traversals and sums.

Payloads are unbounded `int` where the header uses `int`. `size_t` results are `nat`.

## Model

| member | source | states |
|---|---|---|
| Trees.IsEmpty | tree.h:39-41 | a tree is empty exactly when it has no nodes |
| Trees.CreateEmptyNode | tree.h:102-104 | the empty tree: empty, size 0, height 0, no payloads |
| Trees.CreateLeaf | tree.h:106-110 | a single node: its value is the argument, both children are empty, size 1, height 1 |
| Trees.CreateValueNode | tree.h:112-116 | the node's value and children are the arguments (shared, not copied); size and payloads add up |
| Trees.Value | tree.h:34-37 | defined only on a non-empty tree; returns one of the tree's payloads |
| Trees.Left | tree.h:24-27 | defined only on a non-empty tree; a strictly smaller subtree whose payloads are among the tree's |
| Trees.Right | tree.h:29-32 | defined only on a non-empty tree; a strictly smaller subtree whose payloads are among the tree's |
| Trees.AccessorsRebuild | tree.h:24-37 | taking a node apart with the accessors and rebuilding it gives the same tree |
| Trees.Fold | tree.h:118-127 | no contract of its own: it reads the value, folds the left and then the right subtree, and combines; `Trees.FoldUnique` characterises it |
| Trees.FoldUnique | tree.h:118-127 | any function mapping empty to `init` and each node to `op(value, left result, right result)` is the fold |
| Trees.Height | tree.h:175-178 | the fold with `max(l, r) + 1` and 0; zero exactly for the empty tree |
| Trees.Size | tree.h:180-183 | the fold with `l + r + 1` and 0; zero exactly for the empty tree |
| Trees.MetricsEquations | tree.h:175-183 | the recursive equations of height and size that the fold yields |
| Trees.HeightAtMostSize | tree.h:175-183 | height never exceeds size |
| Trees.SizeIsElementCount | tree.h:180-183 | size is the number of payloads |
| Trees.NoElementsIsEmpty | tree.h:39-41 | a tree has no payloads exactly when it is empty |
| Trees.SameShapeMetrics | tree.h:175-183 | trees of the same shape have equal height and size |
| Trees.Map | tree.h:129-135 | no contract of its own: every node is rebuilt with the transformed payload over the mapped children; `Trees.MapKeepsShape`, `Trees.MapIdentity` and `Traversal.VisitOfMap` state what it does |
| Trees.MapKeepsShape | tree.h:129-135 | map keeps the shape, size and height, and puts `f(value)` at the root |
| Trees.MapIdentity | tree.h:129-135 | mapping the identity gives the same tree |
| Traversal.Arrange | tree.h:208-227 | the three order lambdas: the node, left and right contributions each appear once, so the result's length is the sum of theirs |
| Traversal.Visit | tree.h:208-227 | no contract of its own: the payloads in the sequence the order arranges at every node; `Traversal.VisitIsPermutation` states that it holds each payload once |
| Traversal.VisitIsPermutation | tree.h:208-227 | every order visits each node exactly once: the visit is a permutation of the payloads, of length size |
| Traversal.AccumulateHelper | tree.h:79-88 | the threaded accumulator ends as the left fold of the operation over the order's visit sequence |
| Traversal.Accumulate | tree.h:155-160 | the result is that left fold from `a`; an empty tree gives `a` back |
| Traversal.SumOfVisitOrderFree | tree.h:208-227 | the sum of the visited payloads is the same for every order |
| Traversal.AccumulateSumOrderFree | tree.h:155-160 | accumulating `+` from 0 gives the same result in all three orders |
| Traversal.Apply | tree.h:164-173 | the operation receives exactly the order's visit sequence, once per node, and nothing else happens |
| Traversal.VisitOfMap | tree.h:129-135 | visiting the mapped tree gives the transformed visit of the original, in every order |
| Bst.IsBstCombineAsWritten | tree.h:187-196 | no contract of its own: the combine as written, checking `l_max <= v <= r_min` and forwarding `l_min` and `r_max`; `Bst.AsWrittenTripleIsIdentity` states what it yields |
| Bst.IsBstFoldAsWritten | tree.h:185-198 | no contract of its own: the fold with that combine and the identity `(true, INT_MAX, INT_MIN)`; `Bst.AsWrittenMinIsSentinel` states its component 1 |
| Bst.IsBstAsWritten | tree.h:185-200 | no contract of its own: component 1 of the as-written triple, converted to `bool`; `Bst.IsBstAsWrittenAlwaysTrue` states that it is always true |
| Bst.AsWrittenMinIsSentinel | tree.h:195-199 | the returned component 1 of the root triple is always the `int` maximum sentinel |
| Bst.AsWrittenTripleIsIdentity | tree.h:187-198 | on payloads within `int`, every subtree's triple is the identity `(true, MAX, MIN)` |
| Bst.IsBstAsWrittenAlwaysTrue | tree.h:185-200 | as written, `is_bst()` is true for every tree |
| Bst.AsWrittenAcceptsUnordered | tree.h:194-199 | the unordered tree 1(2, _) is accepted as written and rejected by the corrected check |
| Bst.IsBstFoldCorrect | tree.h:185-200 | the corrected fold computes whether the in-order visit is sorted, together with its exact bounds |
| Bst.IsBstIffSorted | tree.h:185-200 | the corrected `is_bst()` holds exactly when the in-order visit is non-decreasing |
| Filter.TreeQueue.constructor | tree.h:148 | a new queue holds nothing |
| Filter.TreeQueue.IsEmpty | tree.h:49 | true exactly when nothing is queued |
| Filter.TreeQueue.Push | tree.h:75 | appends the deferred subtree at the back of the queue |
| Filter.TreeQueue.Front | tree.h:52 | returns the oldest queued subtree |
| Filter.TreeQueue.Pop | tree.h:53 | removes the oldest queued subtree |
| Filter.FilterStep | tree.h:44-77 | only non-empty trees are queued, and the queue never holds more nodes than the input queue and the tree together |
| Filter.FilterStepKeepsOnlyPassing | tree.h:44-77 | every payload the helper keeps satisfies the predicate |
| Filter.FilterStepInventsNothing | tree.h:44-77 | the kept payloads plus those left queued are among the tree's and the incoming queue's |
| Filter.FilterHelper | tree.h:44-77 | the method on the shared queue object returns the tree and leaves the queue that `FilterStep` describes |
| Filter.FilterTree | tree.h:146-150 | filter keeps only passing payloads, all taken from the input, and never grows the tree |
| Filter.Filter | tree.h:146-150 | run on a fresh empty queue; its result is `FilterTree` |
| Filter.FilterStepKeepsPassingTree | tree.h:57-60 | a tree whose payloads all pass is rebuilt unchanged, and nothing is queued |
| Filter.FilterAcceptAll | tree.h:146-150 | an always-true predicate gives back a tree equal to the input |
| Filter.FilterRejectAll | tree.h:146-150 | an always-false predicate gives the empty tree |
| Filter.FilterIdempotent | tree.h:146-150 | filtering the result again with the same predicate changes nothing |
| Filter.FilterDropsDeferredSubtree | tree.h:71-72 | a failing leaf returns empty without draining the queue: for 3(1, 4) and `even`, leaf 4 is queued and lost |
| Filter.FilterReattachesAfterAncestor | tree.h:45-46 | a subtree deferred under a passing node is attached after that node: the BST 4(2(1, 3), _) without 2 becomes 4(1, 3), not a BST |
| Filter.FilterLeftOnlyLosesDeferred | tree.h:67-68 | a failing node with only a left child passes the flag false, so a subtree deferred below it is never drained: 10(5(3, 7), _) without 5 and 10 becomes the leaf 3, and 7 is lost |
| Filter.FilterQueueOrderReversed | tree.h:52-53 | the FIFO queue hands out the outer subtree first: 10(5(3, 7), 20) without 5 and 10 becomes 3(_, 20(_, 7)), not a BST |
| Filter.FilterDeferredInOrder | tree.h:44-77 | the corrected helper keeps, in in-order, exactly the passing payloads of the tree followed by those of the deferred trees |
| Filter.FilterCorrected | tree.h:146-150 | the corrected filter's in-order visit is the input's in-order visit with the failing payloads removed |
| Filter.FilterCorrectedKeepsBst | tree.h:146-150 | the corrected filter turns a BST into a BST, for every predicate |
| Lazy.Cell.Eager | tree.h:246 | a slot holding its value outright; it has no creator, and nothing has run |
| Lazy.Cell.Pending | tree.h:239-242 | a slot holding a creator; nothing is computed yet |
| Lazy.Cell.GetValue | tree.h:248-254 | returns the slot's value; the creator runs only on the first read of a lazy slot and never more than once |
| Lazy.Store | tree.h:112-116 | eager slots for a tree of values; the slots stand for exactly that tree |
| Lazy.LazyMap | tree.h:137-144 | forces each input slot once, creates only pending slots (no transformer call), and the new tree stands for the eager `map` |
| Lazy.ReadValues | tree.h:164-173 | reading every slot in an order yields the visit of the denoted tree; afterwards every lazy slot is created |
| Lazy.LazyFold | tree.h:118-127 | folding a tree of slots reads each node's value before its subtrees, runs every pending creator once, and gives the fold of the denoted tree |
| Lazy.LazyHeight | tree.h:175-178 | `height()` of a tree of slots is the height of the denoted tree, and afterwards every lazy slot is created |
| Lazy.LazySize | tree.h:180-183 | `size()` of a tree of slots is the size of the denoted tree, and afterwards every lazy slot is created |
| Lazy.LazyMapThenHeight | tree.h:137-144 | `lazy_map(f).height()` is the input's height, and it runs the creator of every new slot exactly once |
| Example.Sample | main.cpp:8-15 | the driver's tree 3(1(_, 2), 5(4, _)) has five nodes |
| Example.SampleMetrics | main.cpp:16-30 | height 3, as printed at line 16; the sequences `apply` prints at lines 28-30: in-order 1..5, preorder 3 1 2 5 4, postorder 2 1 4 5 3 |
| Example.SampleIsBst | main.cpp:16 | the sample is a BST for both the written and the corrected check |
| Example.SampleMinusTwo | main.cpp:17-19 | subtracting 2 gives root 1, in-order -1..3, the same height |
| Example.SampleSums | main.cpp:21-26 | accumulating `+` from 0 gives 15 in every order |
| Example.SampleEvenFilter | tree.h:146-150 | filtering the sample with `even` gives 2(_, 4): in-order [2, 4], a BST |

## Left out

- `print` (tree.h:202-205) writes to standard output; it is not modelled. Its traversal is `Apply`.
- The driver `main.cpp` is modelled only as the concrete lemmas of `Example`; its console output is not.
- Custom traversal orders: `Order` is the closed set of the three orders the header defines. A caller-supplied sequencing function is not modelled.
- Sharing through `shared_ptr`: a subtree is a Dafny value, so sharing is invisible in the pure part. In `Lazy`, slots are objects, and two positions may hold the same slot.
- `int` and `size_t` overflow: payloads, sizes and heights are unbounded integers. `Bst.AsWrittenTripleIsIdentity` states its fact only for payloads within the 32-bit range, where the sentinels are the extremes.
- `is_bst` is modelled for `int` payloads only, because its sentinels come from `std::numeric_limits<T>`. Other payload types are not modelled.
- Trees.Map, Filter.FilterStep, Filter.FilterHelper, Traversal.AccumulateHelper, Traversal.Accumulate and Traversal.Apply are modelled over trees of values, which stand for the denotation `Lazy.Denote` of a tree of slots. In the header each of them reads `value()` (tree.h:57, 60, 84, 133, 169), which runs a pending creator. The model does not capture those creator runs for these operations. It captures them for the fold and the metrics built on it (`Lazy.LazyFold`, `Lazy.LazyHeight`, `Lazy.LazySize`), for `lazy_map` (`Lazy.LazyMap`), and for reading the values in an order (`Lazy.ReadValues`). `is_bst` on a tree of slots is `Lazy.LazyFold` with its combine.
- The declared but never defined constructor `Tree(T, Tree, Tree)` (tree.h:98) is not modelled.
- Thread safety of the lazy slots is not modelled: reads of one slot are sequential.
- Filter.FilterStep and the filter lemmas require the incoming queue to hold only non-empty trees. `filter` starts from an empty queue and pushes only non-empty right subtrees (tree.h:75), so every queue it builds meets this.
- Side effects of transformers, predicates and value creators are not modelled: they are total Dafny functions. The ghost call counter of `Lazy.Cell` records creator runs only in the members of `Lazy` that operate on trees of slots.

## Findings

| source | as written | input that shows it | evidently intended | confidence | as-written member | corrected member |
|---|---|---|---|---|---|---|
| tree.h:195-199 | the combine forwards `l_min` and `r_max` without folding `v` into them, and the root returns component 1 (a minimum, converted to `bool`) instead of component 0 | 1(2, _): not ordered, `is_bst()` is true (indeed true for every tree) | component 0 of a fold that tracks the true bounds: true exactly when the in-order visit is non-decreasing | high; not executed | Bst.AsWrittenAcceptsUnordered | Bst.IsBstIffSorted |
| tree.h:71-72 | a failing leaf returns empty without taking the next queued subtree | 3(1, 4) filtered by `even`: 4 passes but the result is empty | every empty slot takes the next deferred subtree | high; not executed | Filter.FilterDropsDeferredSubtree | Filter.FilterCorrected |
| tree.h:67-68 | a failing node with only a left child filters that child with the flag false, so nothing queued below it can be drained | the BST 10(5(3, 7), _) without 5 and 10 gives the leaf 3: 7 is lost | the deferred subtree takes the empty slot left by the removed node | high; not executed | Filter.FilterLeftOnlyLosesDeferred | Filter.FilterCorrected |
| tree.h:45-46 | the left recursion of a passing node shares the queue, so a subtree deferred there is attached to the right of that node | the BST 4(2(1, 3), _) filtered by `x != 2` gives 4(1, 3), in-order 1 4 3 | a passing node's left side drains its own deferred subtrees | high; not executed | Filter.FilterReattachesAfterAncestor | Filter.FilterCorrectedKeepsBst |
| tree.h:52-53 | the deferred subtrees leave a FIFO queue, so the outermost one comes out first | the BST 10(5(3, 7), 20) without 5 and 10 gives 3(_, 20(_, 7)), in-order 3 20 7 | the innermost deferred subtree comes first (a stack) | high; not executed | Filter.FilterQueueOrderReversed | Filter.FilterDeferredInOrder |

The deferred queue of `filter` exists to splice a removed node's right subtree back in at its in-order position, so that a BST stays a BST. The code does not achieve that, as the last four rows show. The model of `filter` follows the code. The corrected filter (`Filter.FilterDeferred`, `Filter.FilterCorrected`) is the version with the BST guarantee proved.
