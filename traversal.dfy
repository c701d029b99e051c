/** The traversal strategy (the three orders) and the order-parameterised
    consumers built on it: `accumulate` and `apply`. */
module Traversal {
  import opened Trees

  /** The three canonical orders. Each runs the node action, the left
      action and the right action exactly once. */
  datatype Order = In | Pre | Post

  /** The sequence an order makes of the node's, the left subtree's and
      the right subtree's contributions: `inorder` is left, node, right;
      `preorder` is node, left, right; `postorder` is left, right, node. */
  function Arrange<T>(o: Order, node: seq<T>, left: seq<T>, right: seq<T>): (res: seq<T>)
    ensures |res| == |node| + |left| + |right|
  {
    match o
    case In => left + node + right
    case Pre => node + left + right
    case Post => left + right + node
  }

  /** The payloads of a tree in the sequence in which `order` visits them. */
  function Visit<T>(t: Tree<T>, o: Order): (res: seq<T>)
  {
    match t
    case Empty => []
    case Node(x, l, r) => Arrange(o, [x], Visit(l, o), Visit(r, o))
  }

  /** Every order visits exactly the tree's payloads, each node once: the
      visit sequences of the three orders are permutations of one another,
      and each has as many entries as the tree has nodes. */
  lemma {:induction false} VisitIsPermutation<T>(t: Tree<T>, o: Order)
    ensures multiset(Visit(t, o)) == Elements(t)
    ensures |Visit(t, o)| == Size(t)
  {
    match t
    case Empty =>
    case Node(_, l, r) =>
      VisitIsPermutation(l, o);
      VisitIsPermutation(r, o);
      SizeIsElementCount(t);
  }

  // ---------------------------------------------------------------------
  // accumulate

  /** Left fold of `op` from `a` over a sequence. */
  function FoldLeft<T>(op: (T, T) -> T, a: T, s: seq<T>): (res: T)
  {
    if s == [] then a else FoldLeft(op, op(a, s[0]), s[1..])
  }

  /** Folding over a concatenation folds the second part from where the
      first part left the accumulator. */
  lemma {:induction false} FoldLeftAppend<T>(op: (T, T) -> T, a: T, s: seq<T>, u: seq<T>)
    ensures FoldLeft(op, a, s + u) == FoldLeft(op, FoldLeft(op, a, s), u)
  {
    if s == [] {
      assert s + u == u;
    } else {
      assert (s + u)[1..] == s[1..] + u;
      FoldLeftAppend(op, op(a, s[0]), s[1..], u);
    }
  }

  /** `accumulate_helper`: the accumulator `a`, passed by reference in the
      source, is threaded in and out. The node action replaces it by
      `op(a, value)`; the left and right actions recurse; the order decides
      the sequence of the three actions. */
  method AccumulateHelper<T>(t: Tree<T>, op: (T, T) -> T, a: T, o: Order) returns (acc: T)
    ensures acc == FoldLeft(op, a, Visit(t, o))
    decreases t
  {
    acc := a;
    if IsEmpty(t) {
      return;
    }
    ghost var x, vl, vr := Value(t), Visit(Left(t), o), Visit(Right(t), o);
    match o {
      case In =>
        acc := AccumulateHelper(Left(t), op, acc, o);
        acc := op(acc, Value(t));
        acc := AccumulateHelper(Right(t), op, acc, o);
        FoldLeftAppend(op, a, vl + [x], vr);
        FoldLeftAppend(op, a, vl, [x]);
      case Pre =>
        acc := op(acc, Value(t));
        acc := AccumulateHelper(Left(t), op, acc, o);
        acc := AccumulateHelper(Right(t), op, acc, o);
        FoldLeftAppend(op, a, [x] + vl, vr);
        FoldLeftAppend(op, a, [x], vl);
      case Post =>
        acc := AccumulateHelper(Left(t), op, acc, o);
        acc := AccumulateHelper(Right(t), op, acc, o);
        acc := op(acc, Value(t));
        FoldLeftAppend(op, a, vl + vr, [x]);
        FoldLeftAppend(op, a, vl, vr);
    }
  }

  /** `accumulate(operation, a, order)`: the left fold of `op` from `a`
      over the visit sequence; an empty tree gives `a` back unchanged. */
  method Accumulate<T>(t: Tree<T>, op: (T, T) -> T, a: T, o: Order) returns (res: T)
    ensures res == FoldLeft(op, a, Visit(t, o))
    ensures IsEmpty(t) ==> res == a
  {
    res := AccumulateHelper(t, op, a, o);
  }

  /** Integer addition, the operation of the sum example. */
  function Plus(a: int, b: int): (res: int)
  {
    a + b
  }

  /** The sum of a sequence of integers. */
  function Sum(s: seq<int>): (res: int)
  {
    if s == [] then 0 else s[0] + Sum(s[1..])
  }

  lemma {:induction false} SumAppend(s: seq<int>, u: seq<int>)
    ensures Sum(s + u) == Sum(s) + Sum(u)
  {
    if s == [] {
      assert s + u == u;
    } else {
      assert (s + u)[1..] == s[1..] + u;
      SumAppend(s[1..], u);
    }
  }

  /** Accumulating with `+` adds the sum of the sequence to the start value. */
  lemma {:induction false} FoldLeftPlusIsSum(a: int, s: seq<int>)
    ensures FoldLeft(Plus, a, s) == a + Sum(s)
    decreases s
  {
    if s != [] {
      FoldLeftPlusIsSum(a + s[0], s[1..]);
    }
  }

  /** The sum of the visited payloads does not depend on the order. */
  lemma {:induction false} SumOfVisitOrderFree(t: Tree<int>, o1: Order, o2: Order)
    ensures Sum(Visit(t, o1)) == Sum(Visit(t, o2))
  {
    match t
    case Empty =>
    case Node(x, l, r) =>
      SumOfVisitOrderFree(l, o1, o2);
      SumOfVisitOrderFree(r, o1, o2);
      var l1, r1, l2, r2 := Visit(l, o1), Visit(r, o1), Visit(l, o2), Visit(r, o2);
      SumOfArrange(o1, [x], l1, r1);
      SumOfArrange(o2, [x], l2, r2);
  }

  lemma SumOfArrange(o: Order, node: seq<int>, left: seq<int>, right: seq<int>)
    ensures Sum(Arrange(o, node, left, right)) == Sum(node) + Sum(left) + Sum(right)
  {
    match o
    case In =>
      SumAppend(left, node);
      SumAppend(left + node, right);
    case Pre =>
      SumAppend(node, left);
      SumAppend(node + left, right);
    case Post =>
      SumAppend(left, right);
      SumAppend(left + right, node);
  }

  /** `accumulate(+, 0, order)` is the same for the three orders. */
  lemma AccumulateSumOrderFree(t: Tree<int>, o1: Order, o2: Order)
    ensures FoldLeft(Plus, 0, Visit(t, o1)) == FoldLeft(Plus, 0, Visit(t, o2))
  {
    FoldLeftPlusIsSum(0, Visit(t, o1));
    FoldLeftPlusIsSum(0, Visit(t, o2));
    SumOfVisitOrderFree(t, o1, o2);
  }

  // ---------------------------------------------------------------------
  // apply

  /** A caller-supplied operation with a side effect: it records the
      arguments it was called with, in call order. */
  class Sink<T> {
    var received: seq<T>

    constructor ()
      ensures received == []
    {
      received := [];
    }

    method Call(x: T)
      modifies this
      ensures received == old(received) + [x]
    {
      received := received + [x];
    }
  }

  /** `apply(operation, order)`: calls the operation once per node, in the
      order's visit sequence, and does nothing else. */
  method Apply<T>(t: Tree<T>, operation: Sink<T>, o: Order)
    modifies operation
    ensures operation.received == old(operation.received) + Visit(t, o)
    decreases t
  {
    if t.Empty? {
      return;
    }
    var x, l, r := t.v, t.l, t.r;
    match o {
      case In =>
        Apply(l, operation, o);
        operation.Call(x);
        Apply(r, operation, o);
        assert Visit(t, o) == Visit(l, o) + [x] + Visit(r, o);
      case Pre =>
        operation.Call(x);
        Apply(l, operation, o);
        Apply(r, operation, o);
        assert Visit(t, o) == [x] + Visit(l, o) + Visit(r, o);
      case Post =>
        Apply(l, operation, o);
        Apply(r, operation, o);
        operation.Call(x);
        assert Visit(t, o) == Visit(l, o) + Visit(r, o) + [x];
    }
  }

  // ---------------------------------------------------------------------
  // map, seen through the orders

  /** Applies `f` to every entry of a sequence. */
  function MapSeq<T>(f: T -> T, s: seq<T>): (r: seq<T>)
    ensures |r| == |s|
  {
    if s == [] then [] else [f(s[0])] + MapSeq(f, s[1..])
  }

  lemma {:induction false} MapSeqAppend<T>(f: T -> T, s: seq<T>, u: seq<T>)
    ensures MapSeq(f, s + u) == MapSeq(f, s) + MapSeq(f, u)
  {
    if s == [] {
      assert s + u == u;
    } else {
      assert (s + u)[1..] == s[1..] + u;
      MapSeqAppend(f, s[1..], u);
    }
  }

  /** Whatever the order, visiting the mapped tree gives the transformed
      visit sequence of the original tree. */
  lemma {:induction false} VisitOfMap<T>(t: Tree<T>, f: T -> T, o: Order)
    ensures Visit(Map(t, f), o) == MapSeq(f, Visit(t, o))
  {
    match t
    case Empty =>
    case Node(x, l, r) =>
      VisitOfMap(l, f, o);
      VisitOfMap(r, f, o);
      var vl, vr := Visit(l, o), Visit(r, o);
      match o
      case In =>
        MapSeqAppend(f, vl, [x]);
        MapSeqAppend(f, vl + [x], vr);
      case Pre =>
        MapSeqAppend(f, [x], vl);
        MapSeqAppend(f, [x] + vl, vr);
      case Post =>
        MapSeqAppend(f, vl, vr);
        MapSeqAppend(f, vl + vr, [x]);
  }
}
