/** `filter(predicate)`: recursive descent that threads a
    `can_be_rightmost` flag and a FIFO queue of deferred right subtrees,
    modelled as written; then a corrected filter that keeps the in-order
    sequence. The flag and the queue exist to splice a removed node's
    right subtree back in at its in-order position; the corrected filter
    does that splice with a stack of deferred subtrees drained at every
    empty slot. */
module Filter {
  import opened Trees
  import opened Traversal
  import opened Bst

  // ---------------------------------------------------------------------
  // The queue of deferred right subtrees

  /** Total number of nodes in the queued trees. */
  ghost function SizeSum<T>(q: seq<Tree<T>>): (res: nat)
  {
    if q == [] then 0 else Size(q[0]) + SizeSum(q[1..])
  }

  /** All payloads held by the queued trees. */
  ghost function QueueElements<T>(q: seq<Tree<T>>): (res: multiset<T>)
  {
    if q == [] then multiset{} else Elements(q[0]) + QueueElements(q[1..])
  }

  /** Only non-empty trees are ever queued. */
  ghost predicate NonEmptyTrees<T>(q: seq<Tree<T>>)
  {
    forall i :: 0 <= i < |q| ==> !q[i].Empty?
  }

  /** Pushing a tree adds its nodes to the queue's node count. */
  lemma {:induction false} QueueAppend<T>(q: seq<Tree<T>>, t: Tree<T>)
    ensures SizeSum(q + [t]) == SizeSum(q) + Size(t)
  {
    if q == [] {
      assert q + [t] == [t];
    } else {
      assert (q + [t])[1..] == q[1..] + [t];
      QueueAppend(q[1..], t);
    }
  }

  /** Pushing a tree adds its payloads to the queue's payloads. */
  lemma {:induction false} QueueAppendElements<T>(q: seq<Tree<T>>, t: Tree<T>)
    ensures QueueElements(q + [t]) == QueueElements(q) + Elements(t)
  {
    if q == [] {
      assert q + [t] == [t];
    } else {
      assert (q + [t])[1..] == q[1..] + [t];
      QueueAppendElements(q[1..], t);
    }
  }

  /** `std::queue<Tree<T>>`, passed by reference through the recursion. */
  class TreeQueue<T> {
    var items: seq<Tree<T>>

    constructor ()
      ensures items == []
    {
      items := [];
    }

    function IsEmpty(): (b: bool)
      reads this
      ensures b <==> |items| == 0
    {
      items == []
    }

    method Push(t: Tree<T>)
      modifies this
      ensures items == old(items) + [t]
    {
      items := items + [t];
    }

    method Front() returns (t: Tree<T>)
      requires items != []
      ensures t == items[0]
    {
      t := items[0];
    }

    method Pop()
      requires items != []
      modifies this
      ensures items == old(items)[1..]
    {
      items := items[1..];
    }
  }

  // ---------------------------------------------------------------------
  // filter_helper, as written

  /** One call of `filter_helper` on tree `t` with flag `rightmost` and
      queue `q`: the filtered tree and the queue it leaves behind.
        - empty slot: pop and filter the front tree if the queue is
          non-empty and the slot may be rightmost, else give empty;
        - passing node: filter left (flag false), then right (flag
          inherited) with the queue the left call left, and rebuild;
        - failing node with one child: filter that child in its place (the
          left one with flag false, the right one with the flag inherited);
        - failing leaf: empty, WITHOUT looking at the queue;
        - failing node with two children: queue the right subtree
          unfiltered and filter the left one with the same flag.
      Only non-empty trees are queued, and the outgoing queue holds no
      more nodes than the incoming queue and the tree together (which is
      what lets the right call follow the left one). */
  function FilterStep<T>(p: T -> bool, t: Tree<T>, rightmost: bool, q: seq<Tree<T>>): (res: (Tree<T>, seq<Tree<T>>))
    requires NonEmptyTrees(q)
    ensures NonEmptyTrees(res.1)
    ensures SizeSum(res.1) <= SizeSum(q) + Size(t)
    decreases SizeSum(q) + Size(t), if t.Empty? then 1 else 0
  {
    match t
    case Empty =>
      if q == [] || !rightmost then (Empty, q)
      else FilterStep(p, q[0], true, q[1..])
    case Node(v, l, r) =>
      SizeOfNode(t);
      if p(v) then
        var (leftFiltered, q1) := FilterStep(p, l, false, q);
        var (rightFiltered, q2) := FilterStep(p, r, rightmost, q1);
        (Node(v, leftFiltered, rightFiltered), q2)
      else if l.Empty? && !r.Empty? then
        FilterStep(p, r, rightmost, q)
      else if !l.Empty? && r.Empty? then
        FilterStep(p, l, false, q)
      else if l.Empty? && r.Empty? then
        (Empty, q)
      else
        QueueAppend(q, r);
        FilterStep(p, l, rightmost, q + [r])
  }

  /** Everything the helper keeps satisfies the predicate. */
  lemma {:induction false} FilterStepKeepsOnlyPassing<T>(p: T -> bool, t: Tree<T>, rightmost: bool, q: seq<Tree<T>>)
    requires NonEmptyTrees(q)
    ensures forall x :: x in Elements(FilterStep(p, t, rightmost, q).0) ==> p(x)
    decreases SizeSum(q) + Size(t), if t.Empty? then 1 else 0
  {
    match t
    case Empty =>
      if q != [] && rightmost {
        FilterStepKeepsOnlyPassing(p, q[0], true, q[1..]);
      }
    case Node(v, l, r) =>
      SizeOfNode(t);
      if p(v) {
        var (lf, q1) := FilterStep(p, l, false, q);
        var (rf, q2) := FilterStep(p, r, rightmost, q1);
        FilterStepKeepsOnlyPassing(p, l, false, q);
        FilterStepKeepsOnlyPassing(p, r, rightmost, q1);
        assert FilterStep(p, t, rightmost, q).0 == Node(v, lf, rf);
      } else if l.Empty? && !r.Empty? {
        FilterStepKeepsOnlyPassing(p, r, rightmost, q);
      } else if !l.Empty? && r.Empty? {
        FilterStepKeepsOnlyPassing(p, l, false, q);
      } else if l.Empty? && r.Empty? {
      } else {
        QueueAppend(q, r);
        FilterStepKeepsOnlyPassing(p, l, rightmost, q + [r]);
      }
  }

  /** The multiset step of a passing node: what the left call keeps and
      leaves queued, then what the right call does with that queue. */
  lemma PassingNodeCount<T>(el: multiset<T>, er: multiset<T>, elf: multiset<T>, erf: multiset<T>,
                            ev: multiset<T>, e0: multiset<T>, e1: multiset<T>, e2: multiset<T>)
    requires elf + e1 <= el + e0
    requires erf + e2 <= er + e1
    ensures (elf + ev + erf) + e2 <= (el + ev + er) + e0
  {
    forall x ensures ((elf + ev + erf) + e2)[x] <= ((el + ev + er) + e0)[x] {
      assert (elf + e1)[x] <= (el + e0)[x];
      assert (erf + e2)[x] <= (er + e1)[x];
    }
  }

  lemma DropQueued<T>(kept: multiset<T>, queued: multiset<T>, from: multiset<T>, queuedBefore: multiset<T>)
    requires kept + queued <= from + queuedBefore
    requires queuedBefore == multiset{}
    ensures kept <= from
  {
    forall x ensures kept[x] <= from[x] {
      assert (kept + queued)[x] <= (from + queuedBefore)[x];
    }
  }

  /** The helper invents nothing: the payloads it keeps together with
      those still queued come from the tree and the incoming queue. */
  lemma {:induction false} FilterStepInventsNothing<T>(p: T -> bool, t: Tree<T>, rightmost: bool, q: seq<Tree<T>>)
    requires NonEmptyTrees(q)
    ensures Elements(FilterStep(p, t, rightmost, q).0) + QueueElements(FilterStep(p, t, rightmost, q).1)
      <= Elements(t) + QueueElements(q)
    decreases SizeSum(q) + Size(t), if t.Empty? then 1 else 0
  {
    match t
    case Empty =>
      if q != [] && rightmost {
        FilterStepInventsNothing(p, q[0], true, q[1..]);
      }
    case Node(v, l, r) =>
      SizeOfNode(t);
      if p(v) {
        var q1 := FilterStep(p, l, false, q).1;
        FilterStepInventsNothing(p, l, false, q);
        FilterStepInventsNothing(p, r, rightmost, q1);
        PassingNodeInventsNothing(p, t, rightmost, q);
      } else if l.Empty? && !r.Empty? {
        FilterStepInventsNothing(p, r, rightmost, q);
      } else if !l.Empty? && r.Empty? {
        FilterStepInventsNothing(p, l, false, q);
      } else if l.Empty? && r.Empty? {
      } else {
        QueueAppend(q, r);
        FilterStepInventsNothing(p, l, rightmost, q + [r]);
        DeferringNodeInventsNothing(p, t, rightmost, q);
      }
  }

  /** The deferring-node step of `FilterStepInventsNothing`, given what the
      call on the left subtree keeps and leaves queued. */
  lemma DeferringNodeInventsNothing<T>(p: T -> bool, t: Tree<T>, rightmost: bool, q: seq<Tree<T>>)
    requires NonEmptyTrees(q) && t.Node? && !p(t.v) && t.l.Node? && t.r.Node?
    requires NonEmptyTrees(q + [t.r])
    requires Elements(FilterStep(p, t.l, rightmost, q + [t.r]).0) + QueueElements(FilterStep(p, t.l, rightmost, q + [t.r]).1)
      <= Elements(t.l) + QueueElements(q + [t.r])
    ensures Elements(FilterStep(p, t, rightmost, q).0) + QueueElements(FilterStep(p, t, rightmost, q).1)
      <= Elements(t) + QueueElements(q)
  {
    QueueAppendElements(q, t.r);
    var res := FilterStep(p, t.l, rightmost, q + [t.r]);
    assert FilterStep(p, t, rightmost, q) == res;
    DeferRightCount(Elements(res.0) + QueueElements(res.1), Elements(t.l), multiset{t.v}, Elements(t.r), QueueElements(q));
  }

  /** The multiset step of a deferring node: its right subtree moves from
      the tree into the queue, and its value is dropped. */
  lemma DeferRightCount<T>(kept: multiset<T>, el: multiset<T>, ev: multiset<T>, er: multiset<T>, eq: multiset<T>)
    requires kept <= el + (eq + er)
    ensures kept <= (el + ev + er) + eq
  {
    forall x ensures kept[x] <= ((el + ev + er) + eq)[x] {
      assert kept[x] <= (el + (eq + er))[x];
    }
  }

  /** The passing-node step of `FilterStepInventsNothing`, given what the
      two recursive calls keep and leave queued. */
  lemma PassingNodeInventsNothing<T>(p: T -> bool, t: Tree<T>, rightmost: bool, q: seq<Tree<T>>)
    requires NonEmptyTrees(q) && t.Node? && p(t.v)
    requires Elements(FilterStep(p, t.l, false, q).0) + QueueElements(FilterStep(p, t.l, false, q).1)
      <= Elements(t.l) + QueueElements(q)
    requires var q1 := FilterStep(p, t.l, false, q).1;
      Elements(FilterStep(p, t.r, rightmost, q1).0) + QueueElements(FilterStep(p, t.r, rightmost, q1).1)
      <= Elements(t.r) + QueueElements(q1)
    ensures Elements(FilterStep(p, t, rightmost, q).0) + QueueElements(FilterStep(p, t, rightmost, q).1)
      <= Elements(t) + QueueElements(q)
  {
    var (lf, q1) := FilterStep(p, t.l, false, q);
    var (rf, q2) := FilterStep(p, t.r, rightmost, q1);
    assert FilterStep(p, t, rightmost, q) == (Node(t.v, lf, rf), q2);
    PassingNodeCount(Elements(t.l), Elements(t.r), Elements(lf), Elements(rf), multiset{t.v},
      QueueElements(q), QueueElements(q1), QueueElements(q2));
  }

  /** `filter_helper` on the shared queue object: the result and the new
      queue contents are those of `FilterStep`. */
  method FilterHelper<T>(t: Tree<T>, p: T -> bool, rightmost: bool, toAppend: TreeQueue<T>) returns (res: Tree<T>)
    requires NonEmptyTrees(toAppend.items)
    modifies toAppend
    ensures (res, toAppend.items) == FilterStep(p, t, rightmost, old(toAppend.items))
    decreases SizeSum(toAppend.items) + Size(t), if t.Empty? then 1 else 0
  {
    if IsEmpty(t) {
      if toAppend.IsEmpty() || !rightmost {
        return CreateEmptyNode();
      }
      var first := toAppend.Front();
      toAppend.Pop();
      res := FilterHelper(first, p, true, toAppend);
      return;
    }
    if p(Value(t)) {
      var leftFiltered := FilterHelper(Left(t), p, false, toAppend);
      var rightFiltered := FilterHelper(Right(t), p, rightmost, toAppend);
      return CreateValueNode(Value(t), leftFiltered, rightFiltered);
    }
    if IsEmpty(Left(t)) && !IsEmpty(Right(t)) {
      res := FilterHelper(Right(t), p, rightmost, toAppend);
      return;
    }
    if !IsEmpty(Left(t)) && IsEmpty(Right(t)) {
      res := FilterHelper(Left(t), p, false, toAppend);
      return;
    }
    if IsEmpty(Left(t)) && IsEmpty(Right(t)) {
      return CreateEmptyNode();
    }
    QueueAppend(toAppend.items, Right(t));
    toAppend.Push(Right(t));
    res := FilterHelper(Left(t), p, rightmost, toAppend);
  }

  /** `filter(predicate)`: the helper seeded with flag true and an empty
      queue. Every kept payload satisfies the predicate and comes from
      the tree, so the result is never larger than the tree. */
  function FilterTree<T>(p: T -> bool, t: Tree<T>): (r: Tree<T>)
    ensures forall x :: x in Elements(r) ==> p(x)
    ensures Elements(r) <= Elements(t)
    ensures Size(r) <= Size(t)
  {
    var r := FilterStep(p, t, true, []).0;
    FilterStepKeepsOnlyPassing(p, t, true, []);
    FilterStepInventsNothing(p, t, true, []);
    DropQueued(Elements(r), QueueElements(FilterStep(p, t, true, []).1), Elements(t), QueueElements<T>([]));
    SizeIsElementCount(r);
    SizeIsElementCount(t);
    SubMultisetCardinality(Elements(r), Elements(t));
    r
  }

  /** `filter(predicate)` run on a fresh queue object. */
  method Filter<T>(t: Tree<T>, p: T -> bool) returns (res: Tree<T>)
    ensures res == FilterTree(p, t)
    ensures forall x :: x in Elements(res) ==> p(x)
    ensures Elements(res) <= Elements(t)
  {
    var toAppend := new TreeQueue<T>();
    res := FilterHelper(t, p, true, toAppend);
  }

  // ---------------------------------------------------------------------
  // Properties of filter as written

  /** On a tree whose payloads all pass, with an empty queue, the helper
      rebuilds the same tree and never queues anything. */
  lemma {:induction false} FilterStepKeepsPassingTree<T>(p: T -> bool, t: Tree<T>, rightmost: bool)
    requires forall x :: x in Elements(t) ==> p(x)
    ensures FilterStep(p, t, rightmost, []) == (t, [])
  {
    match t
    case Empty =>
    case Node(v, l, r) =>
      assert v in Elements(t);
      assert forall x :: x in Elements(l) ==> x in Elements(t);
      assert forall x :: x in Elements(r) ==> x in Elements(t);
      FilterStepKeepsPassingTree(p, l, false);
      FilterStepKeepsPassingTree(p, r, rightmost);
  }

  lemma EveryPayloadPasses<T>(p: T -> bool, t: Tree<T>)
    requires forall x: T :: p(x)
    ensures forall x :: x in Elements(t) ==> p(x)
  {
  }

  /** An always-true predicate gives back a tree equal to the input. */
  lemma {:induction false} FilterAcceptAll<T>(p: T -> bool, t: Tree<T>)
    requires forall x: T :: p(x)
    ensures FilterTree(p, t) == t
  {
    EveryPayloadPasses(p, t);
    FilterStepKeepsPassingTree(p, t, true);
  }

  /** An always-false predicate gives the empty tree. */
  lemma FilterRejectAll<T>(p: T -> bool, t: Tree<T>)
    requires forall x: T :: !p(x)
    ensures FilterTree(p, t) == Empty
  {
    var r := FilterTree(p, t);
    if r.Node? {
      assert r.v in Elements(r);
    }
  }

  /** Filtering twice with the same predicate changes nothing more. */
  lemma FilterIdempotent<T>(p: T -> bool, t: Tree<T>)
    ensures FilterTree(p, FilterTree(p, t)) == FilterTree(p, t)
  {
    FilterStepKeepsPassingTree(p, FilterTree(p, t), true);
  }

  // ---------------------------------------------------------------------
  // Corrected filter

  /** The payloads of the deferred trees, each in in-order, in queue order. */
  ghost function Flatten<T>(q: seq<Tree<T>>): (res: seq<T>)
  {
    if q == [] then [] else Visit(q[0], In) + Flatten(q[1..])
  }

  /** The entries of `s` that satisfy `p`, in their original order. */
  function SeqFilter<T>(p: T -> bool, s: seq<T>): (res: seq<T>)
  {
    if s == [] then [] else (if p(s[0]) then [s[0]] else []) + SeqFilter(p, s[1..])
  }

  lemma {:induction false} SeqFilterAppend<T>(p: T -> bool, s: seq<T>, u: seq<T>)
    ensures SeqFilter(p, s + u) == SeqFilter(p, s) + SeqFilter(p, u)
  {
    if s == [] {
      assert s + u == u;
    } else {
      var head := if p(s[0]) then [s[0]] else [];
      var su := s + u;
      assert su[0] == s[0];
      assert su[1..] == s[1..] + u;
      assert SeqFilter(p, su) == head + SeqFilter(p, s[1..] + u);
      SeqFilterAppend(p, s[1..], u);
      assert SeqFilter(p, s) == head + SeqFilter(p, s[1..]);
    }
  }

  /** The deferred-subtree filter with the three defects removed: the
      deferred subtrees form a stack (the innermost one comes first in
      in-order), a passing node's left side is filtered with a stack of its
      own, and every empty slot, a failing leaf's included, takes the next
      deferred subtree. No `can_be_rightmost` flag is needed then. */
  function FilterDeferred<T>(p: T -> bool, t: Tree<T>, pending: seq<Tree<T>>): (res: Tree<T>)
    requires NonEmptyTrees(pending)
    decreases SizeSum(pending) + Size(t), if t.Empty? then 1 else 0
  {
    match t
    case Empty =>
      if pending == [] then Empty else FilterDeferred(p, pending[0], pending[1..])
    case Node(v, l, r) =>
      if p(v) then
        Node(v, FilterDeferred(p, l, []), FilterDeferred(p, r, pending))
      else if r.Empty? then
        FilterDeferred(p, l, pending)
      else
        assert ([r] + pending)[1..] == pending;
        FilterDeferred(p, l, [r] + pending)
  }

  /** The corrected filter keeps, in in-order, exactly the passing payloads
      of the tree followed by those of the deferred trees. */
  lemma {:induction false} FilterDeferredInOrder<T>(p: T -> bool, t: Tree<T>, pending: seq<Tree<T>>)
    requires NonEmptyTrees(pending)
    ensures Visit(FilterDeferred(p, t, pending), In) == SeqFilter(p, Visit(t, In) + Flatten(pending))
    decreases SizeSum(pending) + Size(t), if t.Empty? then 1 else 0
  {
    match t
    case Empty =>
      assert Visit(t, In) + Flatten(pending) == Flatten(pending);
      if pending != [] {
        FilterDeferredInOrder(p, pending[0], pending[1..]);
      }
    case Node(v, l, r) =>
      var vl, vr, rest := Visit(l, In), Visit(r, In), Flatten(pending);
      assert Visit(t, In) + rest == vl + [v] + (vr + rest);
      SeqFilterAround(p, vl, v, vr + rest);
      if p(v) {
        FilterDeferredInOrder(p, l, []);
        assert vl + Flatten<T>([]) == vl;
        FilterDeferredInOrder(p, r, pending);
      } else if r.Empty? {
        assert vr + rest == rest;
        FilterDeferredInOrder(p, l, pending);
        SeqFilterAppend(p, vl, rest);
      } else {
        assert ([r] + pending)[1..] == pending;
        FilterDeferredInOrder(p, l, [r] + pending);
        assert Flatten([r] + pending) == vr + rest;
        SeqFilterAppend(p, vl, vr + rest);
      }
  }

  /** Filtering around one entry: the left part, the entry if it passes,
      the right part. */
  lemma SeqFilterAround<T>(p: T -> bool, left: seq<T>, v: T, right: seq<T>)
    ensures SeqFilter(p, left + [v] + right)
      == SeqFilter(p, left) + (if p(v) then [v] else []) + SeqFilter(p, right)
  {
    assert left + [v] + right == left + ([v] + right);
    SeqFilterAppend(p, left, [v] + right);
    assert ([v] + right)[0] == v && ([v] + right)[1..] == right;
  }

  /** The corrected `filter(predicate)`: its in-order visit is exactly the
      passing payloads of the input's in-order visit, in the same order. */
  function FilterCorrected<T>(p: T -> bool, t: Tree<T>): (r: Tree<T>)
    ensures Visit(r, In) == SeqFilter(p, Visit(t, In))
  {
    FilterDeferredInOrder(p, t, []);
    assert Visit(t, In) + Flatten<T>([]) == Visit(t, In);
    FilterDeferred(p, t, [])
  }

  lemma {:induction false} SeqFilterFromInput<T>(p: T -> bool, s: seq<T>)
    ensures forall x :: x in SeqFilter(p, s) ==> x in s && p(x)
  {
    if s != [] {
      SeqFilterFromInput(p, s[1..]);
    }
  }

  lemma SortedTail(s: seq<int>)
    requires Sorted(s) && s != []
    ensures Sorted(s[1..])
    ensures forall x :: x in s[1..] ==> s[0] <= x
  {
    forall x | x in s[1..] ensures s[0] <= x {
      var i :| 0 <= i < |s[1..]| && s[1..][i] == x;
      assert s[i + 1] == x;
    }
  }

  lemma SortedCons(a: int, u: seq<int>)
    requires Sorted(u)
    requires forall x :: x in u ==> a <= x
    ensures Sorted([a] + u)
  {
    var s := [a] + u;
    forall i, j | 0 <= i < j < |s| ensures s[i] <= s[j] {
      assert s[j] == u[j - 1];
      if i == 0 {
        assert u[j - 1] in u;
      } else {
        assert s[i] == u[i - 1];
      }
    }
  }

  /** Dropping entries from a sorted sequence leaves it sorted. */
  lemma {:induction false} SeqFilterKeepsSorted(p: int -> bool, s: seq<int>)
    requires Sorted(s)
    ensures Sorted(SeqFilter(p, s))
  {
    if s != [] {
      SortedTail(s);
      SeqFilterKeepsSorted(p, s[1..]);
      SeqFilterFromInput(p, s[1..]);
      if p(s[0]) {
        SortedCons(s[0], SeqFilter(p, s[1..]));
      } else {
        assert SeqFilter(p, s) == SeqFilter(p, s[1..]);
      }
    }
  }

  /** Filtering a BST with the corrected filter gives a BST. */
  lemma FilterCorrectedKeepsBst(p: int -> bool, t: Tree<int>)
    requires IsBst(t)
    ensures IsBst(FilterCorrected(p, t))
  {
    IsBstIffSorted(t);
    SeqFilterKeepsSorted(p, Visit(t, In));
    IsBstIffSorted(FilterCorrected(p, t));
  }

  // ---------------------------------------------------------------------
  // Where the source's filter departs from the corrected one

  function IsEven(x: int): (res: bool)
  {
    x % 2 == 0
  }

  /** A failing leaf returns empty without draining the queue: for root 3
      with leaves 1 and 4 and the even predicate, 4 is queued and lost
      (the corrected filter keeps it). */
  lemma FilterDropsDeferredSubtree()
    ensures FilterStep(IsEven, Node(3, CreateLeaf(1), CreateLeaf(4)), true, []) == (Empty, [CreateLeaf(4)])
    ensures FilterTree(IsEven, Node(3, CreateLeaf(1), CreateLeaf(4))) == Empty
    ensures Visit(FilterCorrected(IsEven, Node(3, CreateLeaf(1), CreateLeaf(4))), In) == [4]
  {
    var one, four := CreateLeaf(1), CreateLeaf(4);
    var t := Node(3, one, four);
    assert !IsEven(1) && !IsEven(3) && IsEven(4);
    assert FilterStep(IsEven, one, true, [four]) == (Empty, [four]);
    assert [] + [four] == [four];
    assert FilterStep(IsEven, t, true, []) == FilterStep(IsEven, one, true, [four]);
    assert Visit(t, In) == [1, 3, 4];
    assert SeqFilter(IsEven, [4]) == [4];
    assert SeqFilter(IsEven, [3, 4]) == [4];
    assert SeqFilter(IsEven, [1, 3, 4]) == [4];
  }

  function NotTwo(x: int): (res: bool)
  {
    x != 2
  }

  /** A right subtree deferred below a passing node (flag false) is
      re-attached after that node: the BST 4(2(1, 3), _) filtered by
      `x != 2` becomes 4(1, 3), whose in-order is [1, 4, 3]. */
  lemma FilterReattachesAfterAncestor()
    ensures FilterTree(NotTwo, Node(4, Node(2, CreateLeaf(1), CreateLeaf(3)), Empty))
      == Node(4, CreateLeaf(1), CreateLeaf(3))
    ensures IsBst(Node(4, Node(2, CreateLeaf(1), CreateLeaf(3)), Empty))
    ensures !IsBst(Node(4, CreateLeaf(1), CreateLeaf(3)))
  {
    var one, three := CreateLeaf(1), CreateLeaf(3);
    var t := Node(4, Node(2, one, three), Empty);
    var u := Node(4, one, three);
    assert NotTwo(1) && !NotTwo(2) && NotTwo(3) && NotTwo(4);
    assert FilterStep(NotTwo, Empty, false, [three]) == (Empty, [three]);
    assert FilterStep(NotTwo, one, false, [three]) == (one, [three]);
    assert [] + [three] == [three];
    assert FilterStep(NotTwo, Node(2, one, three), false, []) == (one, [three]);
    assert FilterStep(NotTwo, Empty, true, []) == (Empty, []);
    assert FilterStep(NotTwo, three, true, []) == (three, []);
    assert FilterStep(NotTwo, Empty, true, [three]) == (three, []);
    assert FilterStep(NotTwo, t, true, []) == (u, []);
    IsBstIffSorted(t);
    assert Visit(t, In) == [1, 2, 3, 4];
    IsBstIffSorted(u);
    assert Visit(u, In) == [1, 4, 3];
  }

  function NotFiveOrTen(x: int): (res: bool)
  {
    x != 5 && x != 10
  }

  /** The queue is first-in first-out, but the subtree deferred last lies
      first in in-order: the BST 10(5(3, 7), 20) filtered by removing 5
      and 10 becomes 3(_, 20(_, 7)), whose in-order is [3, 20, 7]. */
  lemma FilterQueueOrderReversed()
    ensures FilterTree(NotFiveOrTen, Node(10, Node(5, CreateLeaf(3), CreateLeaf(7)), CreateLeaf(20)))
      == Node(3, Empty, Node(20, Empty, CreateLeaf(7)))
    ensures IsBst(Node(10, Node(5, CreateLeaf(3), CreateLeaf(7)), CreateLeaf(20)))
    ensures !IsBst(Node(3, Empty, Node(20, Empty, CreateLeaf(7))))
  {
    var three, seven, twenty := CreateLeaf(3), CreateLeaf(7), CreateLeaf(20);
    var t := Node(10, Node(5, three, seven), twenty);
    var u := Node(3, Empty, Node(20, Empty, seven));
    assert NotFiveOrTen(3) && NotFiveOrTen(7) && NotFiveOrTen(20) && !NotFiveOrTen(5) && !NotFiveOrTen(10);
    assert FilterStep(NotFiveOrTen, Empty, false, []) == (Empty, []);
    assert FilterStep(NotFiveOrTen, Empty, true, []) == (Empty, []);
    assert FilterStep(NotFiveOrTen, seven, true, []) == (seven, []);
    assert [seven][1..] == [];
    assert FilterStep(NotFiveOrTen, Empty, true, [seven]) == (seven, []);
    assert FilterStep(NotFiveOrTen, Empty, false, [seven]) == (Empty, [seven]);
    assert FilterStep(NotFiveOrTen, twenty, true, [seven]) == (Node(20, Empty, seven), []);
    assert [twenty, seven][1..] == [seven];
    assert FilterStep(NotFiveOrTen, Empty, true, [twenty, seven]) == (Node(20, Empty, seven), []);
    assert FilterStep(NotFiveOrTen, Empty, false, [twenty, seven]) == (Empty, [twenty, seven]);
    assert FilterStep(NotFiveOrTen, three, true, [twenty, seven]) == (u, []);
    assert [twenty] + [seven] == [twenty, seven];
    assert FilterStep(NotFiveOrTen, Node(5, three, seven), true, [twenty]) == (u, []);
    assert [] + [twenty] == [twenty];
    assert FilterStep(NotFiveOrTen, t, true, []) == (u, []);
    IsBstIffSorted(t);
    assert Visit(t, In) == [3, 5, 7, 10, 20];
    IsBstIffSorted(u);
    assert Visit(u, In) == [3, 20, 7];
  }

  /** A failing node with only a left child passes the flag false down, so
      a subtree deferred below it can never be drained: the BST
      10(5(3, 7), _) filtered by removing 5 and 10 becomes the leaf 3, and
      7 is lost. */
  lemma FilterLeftOnlyLosesDeferred()
    ensures FilterStep(NotFiveOrTen, Node(10, Node(5, CreateLeaf(3), CreateLeaf(7)), Empty), true, [])
      == (CreateLeaf(3), [CreateLeaf(7)])
    ensures FilterTree(NotFiveOrTen, Node(10, Node(5, CreateLeaf(3), CreateLeaf(7)), Empty)) == CreateLeaf(3)
    ensures Visit(FilterCorrected(NotFiveOrTen, Node(10, Node(5, CreateLeaf(3), CreateLeaf(7)), Empty)), In) == [3, 7]
  {
    var three, seven := CreateLeaf(3), CreateLeaf(7);
    var t := Node(10, Node(5, three, seven), Empty);
    assert NotFiveOrTen(3) && NotFiveOrTen(7) && !NotFiveOrTen(5) && !NotFiveOrTen(10);
    assert FilterStep(NotFiveOrTen, Empty, false, [seven]) == (Empty, [seven]);
    assert FilterStep(NotFiveOrTen, three, false, [seven]) == (three, [seven]);
    assert [] + [seven] == [seven];
    assert FilterStep(NotFiveOrTen, Node(5, three, seven), false, []) == (three, [seven]);
    assert FilterStep(NotFiveOrTen, t, true, []) == (three, [seven]);
    assert Visit(t, In) == [3, 5, 7, 10];
    assert SeqFilter(NotFiveOrTen, [10]) == [];
    assert SeqFilter(NotFiveOrTen, [7, 10]) == [7];
    assert SeqFilter(NotFiveOrTen, [5, 7, 10]) == [7];
    assert SeqFilter(NotFiveOrTen, [3, 5, 7, 10]) == [3, 7];
  }
}
