/** The node store of the generic immutable binary tree: construction,
    accessors, the structural fold and the metrics defined through it,
    and the eager map. */
module Trees {

  /** A tree is either empty or a node holding a payload and two subtrees.
      Subtrees are values, so sharing a subtree between two trees is free. */
  datatype Tree<T> = Empty | Node(v: T, l: Tree<T>, r: Tree<T>)

  // ---------------------------------------------------------------------
  // Specification helpers

  /** The multiset of payloads held by a tree. */
  ghost function Elements<T>(t: Tree<T>): (res: multiset<T>)
  {
    match t
    case Empty => multiset{}
    case Node(v, l, r) => Elements(l) + multiset{v} + Elements(r)
  }

  /** Two trees have the same shape when they are empty together and
      their children have the same shape, whatever the payloads. */
  ghost predicate SameShape<T>(a: Tree<T>, b: Tree<T>)
  {
    match (a, b)
    case (Empty, Empty) => true
    case (Node(_, al, ar), Node(_, bl, br)) => SameShape(al, bl) && SameShape(ar, br)
    case _ => false
  }

  function Max(a: nat, b: nat): (res: nat)
  {
    if a < b then b else a
  }

  // ---------------------------------------------------------------------
  // Construction and accessors

  /** `empty()`: the handle holds no root. */
  function IsEmpty<T>(t: Tree<T>): (b: bool)
    ensures b <==> Size(t) == 0
  {
    t.Empty?
  }

  /** `createEmptyNode()`. */
  function CreateEmptyNode<T>(): (t: Tree<T>)
    ensures IsEmpty(t) && Size(t) == 0 && Height(t) == 0
    ensures Elements(t) == multiset{}
  {
    Empty
  }

  /** `createValueNode(value)`: a single node with both children empty. */
  function CreateLeaf<T>(x: T): (t: Tree<T>)
    ensures !IsEmpty(t) && Value(t) == x
    ensures IsEmpty(Left(t)) && IsEmpty(Right(t))
    ensures Size(t) == 1 && Height(t) == 1 && Elements(t) == multiset{x}
  {
    MetricsEquations(Node(x, Empty, Empty));
    Node(x, Empty, Empty)
  }

  /** `createValueNode(value, left, right)`: shares both subtrees. */
  function CreateValueNode<T>(x: T, left: Tree<T>, right: Tree<T>): (t: Tree<T>)
    ensures !IsEmpty(t) && Value(t) == x && Left(t) == left && Right(t) == right
    ensures Size(t) == Size(left) + Size(right) + 1
    ensures Elements(t) == Elements(left) + multiset{x} + Elements(right)
  {
    Node(x, left, right)
  }

  /** `value()`: defined only on a non-empty tree; it is one of the tree's payloads. */
  function Value<T>(t: Tree<T>): (x: T)
    requires !t.Empty?
    ensures x in Elements(t)
  {
    t.v
  }

  /** `left()`: defined only on a non-empty tree; a strictly smaller subtree. */
  function Left<T>(t: Tree<T>): (s: Tree<T>)
    requires !t.Empty?
    ensures Size(s) < Size(t) && Elements(s) <= Elements(t)
  {
    t.l
  }

  /** `right()`: defined only on a non-empty tree; a strictly smaller subtree. */
  function Right<T>(t: Tree<T>): (s: Tree<T>)
    requires !t.Empty?
    ensures Size(s) < Size(t) && Elements(s) <= Elements(t)
  {
    t.r
  }

  /** Taking a non-empty tree apart with the accessors and rebuilding it
      with `createValueNode` gives the same tree back. */
  lemma AccessorsRebuild<T>(t: Tree<T>)
    requires !IsEmpty(t)
    ensures CreateValueNode(Value(t), Left(t), Right(t)) == t
  {
  }

  // ---------------------------------------------------------------------
  // Fold and the metrics built on it

  /** `fold(operation, init)`: bottom-up structural recursion; the value
      is read first, then the left and the right subtree are folded. */
  function Fold<T, R>(t: Tree<T>, op: (T, R, R) -> R, init: R): (res: R)
  {
    match t
    case Empty => init
    case Node(x, l, r) =>
      var lResult := Fold(l, op, init);
      var rResult := Fold(r, op, init);
      op(x, lResult, rResult)
  }

  /** Universal property of the fold: any function on trees that maps the
      empty tree to `init` and every node to `op` of its payload and its
      children's images is the fold. */
  lemma {:induction false} FoldUnique<T, R>(h: Tree<T> -> R, op: (T, R, R) -> R, init: R, t: Tree<T>)
    requires h(Empty) == init
    requires forall x, l, r :: h(Node(x, l, r)) == op(x, h(l), h(r))
    ensures h(t) == Fold(t, op, init)
  {
    match t
    case Empty =>
    case Node(x, l, r) =>
      FoldUnique(h, op, init, l);
      FoldUnique(h, op, init, r);
  }

  /** `height()`: a fold with combine `max(l, r) + 1` and identity 0. */
  function Height<T>(t: Tree<T>): (h: nat)
    ensures h == 0 <==> t.Empty?
  {
    Fold<T, nat>(t, (x: T, hl: nat, hr: nat) => Max(hl, hr) + 1, 0)
  }

  /** `size()`: a fold with combine `l + r + 1` and identity 0. */
  function Size<T>(t: Tree<T>): (n: nat)
    ensures n == 0 <==> t.Empty?
  {
    Fold<T, nat>(t, (x: T, nl: nat, nr: nat) => nl + nr + 1, 0)
  }

  /** The recursive equations that the fold gives the two metrics. */
  lemma MetricsEquations<T>(t: Tree<T>)
    ensures t.Empty? ==> Size(t) == 0 && Height(t) == 0
    ensures t.Node? ==> Size(t) == Size(t.l) + Size(t.r) + 1
    ensures t.Node? ==> Height(t) == Max(Height(t.l), Height(t.r)) + 1
  {
  }

  /** The size equation alone, for proofs that do not need the height. */
  lemma SizeOfNode<T>(t: Tree<T>)
    requires t.Node?
    ensures Size(t) == Size(t.l) + Size(t.r) + 1
  {
  }

  /** A tree is never higher than it has nodes. */
  lemma {:induction false} HeightAtMostSize<T>(t: Tree<T>)
    ensures Height(t) <= Size(t)
  {
    match t
    case Empty =>
    case Node(_, l, r) =>
      HeightAtMostSize(l);
      HeightAtMostSize(r);
      MetricsEquations(t);
  }

  /** The number of nodes is the number of payloads. */
  lemma {:induction false} SizeIsElementCount<T>(t: Tree<T>)
    ensures Size(t) == |Elements(t)|
  {
    match t
    case Empty =>
    case Node(_, l, r) =>
      SizeIsElementCount(l);
      SizeIsElementCount(r);
      MetricsEquations(t);
  }

  lemma SubMultisetCardinality<T>(a: multiset<T>, b: multiset<T>)
    requires a <= b
    ensures |a| <= |b|
  {
    var d := b - a;
    assert b == a + d;
  }

  /** Only the empty tree has no payloads. */
  lemma NoElementsIsEmpty<T>(t: Tree<T>)
    ensures Elements(t) == multiset{} <==> t.Empty?
  {
    if t.Node? {
      assert t.v in Elements(t);
    }
  }

  /** Trees of the same shape have the same size and height. */
  lemma {:induction false} SameShapeMetrics<T>(a: Tree<T>, b: Tree<T>)
    requires SameShape(a, b)
    ensures Size(a) == Size(b) && Height(a) == Height(b)
  {
    match (a, b)
    case (Empty, Empty) =>
    case (Node(_, al, ar), Node(_, bl, br)) =>
      SameShapeMetrics(al, bl);
      SameShapeMetrics(ar, br);
      MetricsEquations(a);
      MetricsEquations(b);
  }

  // ---------------------------------------------------------------------
  // Eager map

  /** `map(transformer)`: rebuilds every node with the transformed payload. */
  function Map<T>(t: Tree<T>, f: T -> T): (m: Tree<T>)
  {
    match t
    case Empty => Empty
    case Node(x, l, r) =>
      var mapped := f(x);
      Node(mapped, Map(l, f), Map(r, f))
  }

  /** The map keeps the shape, so it keeps the size and the height, and
      the root payload is the transformed original root payload (the
      payloads at every position are related by `Traversal.VisitOfMap`). */
  lemma {:induction false} MapKeepsShape<T>(t: Tree<T>, f: T -> T)
    ensures SameShape(Map(t, f), t)
    ensures Size(Map(t, f)) == Size(t) && Height(Map(t, f)) == Height(t)
    ensures t.Node? ==> Map(t, f).v == f(t.v)
  {
    match t
    case Empty =>
    case Node(_, l, r) =>
      MapKeepsShape(l, f);
      MapKeepsShape(r, f);
      SameShapeMetrics(Map(t, f), t);
  }

  /** Mapping the identity gives the same tree back. */
  lemma {:induction false} MapIdentity<T>(t: Tree<T>)
    ensures Map(t, x => x) == t
  {
    match t
    case Empty =>
    case Node(_, l, r) =>
      MapIdentity(l);
      MapIdentity(r);
  }
}
