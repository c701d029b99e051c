/** `is_bst()` on integer trees: the fold exactly as the source writes it,
    and the check it evidently intends, a fold over an explicit
    "no values yet" bound instead of the type's min/max sentinels. */
module Bst {
  import opened Trees
  import opened Traversal

  /** `std::numeric_limits<int>::max()` and `::min()` for a 32-bit int. */
  const IntMax: int := 0x7fff_ffff
  const IntMin: int := -0x8000_0000

  // ---------------------------------------------------------------------
  // As written

  /** The triple carried by the fold: (is a BST, minimum, maximum). */
  type Triple = (bool, int, int)

  /** The combine of the source: it checks `l_max <= v <= r_min` but
      forwards `l_min` and `r_max` without ever folding `v` into them. */
  function IsBstCombineAsWritten(v: int, l: Triple, r: Triple): (res: Triple)
  {
    var isBst := l.0 && r.0 && l.2 <= v && v <= r.1;
    (isBst, l.1, r.2)
  }

  function IsBstFoldAsWritten(t: Tree<int>): (res: Triple)
  {
    Fold(t, IsBstCombineAsWritten, (true, IntMax, IntMin))
  }

  /** The source returns component 1 of the root triple (the "minimum"),
      converted to `bool`, instead of component 0. */
  function IsBstAsWritten(t: Tree<int>): (res: bool)
  {
    IsBstFoldAsWritten(t).1 != 0
  }

  /** The "minimum" component is always the max sentinel: it is forwarded
      from the leftmost empty subtree, which contributes the identity. */
  lemma {:induction false} AsWrittenMinIsSentinel(t: Tree<int>)
    ensures IsBstFoldAsWritten(t).1 == IntMax
  {
    match t
    case Empty =>
    case Node(_, l, _) =>
      AsWrittenMinIsSentinel(l);
  }

  /** Every payload of the tree is a value of a 32-bit int. */
  ghost predicate FitsInt(t: Tree<int>)
  {
    match t
    case Empty => true
    case Node(v, l, r) => IntMin <= v <= IntMax && FitsInt(l) && FitsInt(r)
  }

  /** When every payload fits a 32-bit int, every subtree's triple is the
      identity `(true, MAX, MIN)`: the bound checks always pass against
      the sentinels. */
  lemma {:induction false} AsWrittenTripleIsIdentity(t: Tree<int>)
    requires FitsInt(t)
    ensures IsBstFoldAsWritten(t) == (true, IntMax, IntMin)
  {
    match t
    case Empty =>
    case Node(v, l, r) =>
      AsWrittenTripleIsIdentity(l);
      AsWrittenTripleIsIdentity(r);
      assert IsBstFoldAsWritten(t) == IsBstCombineAsWritten(v, IsBstFoldAsWritten(l), IsBstFoldAsWritten(r));
  }

  /** As written, `is_bst()` is true of every tree. */
  lemma IsBstAsWrittenAlwaysTrue(t: Tree<int>)
    ensures IsBstAsWritten(t)
  {
    AsWrittenMinIsSentinel(t);
  }

  // ---------------------------------------------------------------------
  // Corrected

  /** The least and greatest payload seen so far, or none at all. */
  datatype Bounds = NoValues | Range(lo: int, hi: int)

  /** What the corrected fold carries: whether the subtree is ordered,
      and the bounds of its payloads. */
  datatype BstInfo = BstInfo(ordered: bool, bounds: Bounds)

  function Union(a: Bounds, b: Bounds): (res: Bounds)
  {
    match (a, b)
    case (NoValues, _) => b
    case (_, NoValues) => a
    case (Range(al, ah), Range(bl, bh)) =>
      Range(if al <= bl then al else bl, if ah <= bh then bh else ah)
  }

  /** Every payload of the left subtree is at most `v` (non-strict, as the source compares). */
  function BelowOrAt(b: Bounds, v: int): (res: bool)
  {
    b.NoValues? || b.hi <= v
  }

  /** Every payload of the right subtree is at least `v` (non-strict). */
  function AboveOrAt(b: Bounds, v: int): (res: bool)
  {
    b.NoValues? || v <= b.lo
  }

  function IsBstCombine(v: int, l: BstInfo, r: BstInfo): (res: BstInfo)
  {
    var ordered := l.ordered && r.ordered && BelowOrAt(l.bounds, v) && AboveOrAt(r.bounds, v);
    BstInfo(ordered, Union(Union(l.bounds, Range(v, v)), r.bounds))
  }

  function IsBstFold(t: Tree<int>): (res: BstInfo)
  {
    Fold(t, IsBstCombine, BstInfo(true, NoValues))
  }

  /** The corrected `is_bst()`: component 0 of the root's fold result. */
  function IsBst(t: Tree<int>): (res: bool)
  {
    IsBstFold(t).ordered
  }

  /** Non-decreasing order of a sequence. */
  ghost predicate Sorted(s: seq<int>)
  {
    forall i, j :: 0 <= i < j < |s| ==> s[i] <= s[j]
  }

  /** `b` gives the exact least and greatest entry of `s`. */
  ghost predicate Bounded(b: Bounds, s: seq<int>)
  {
    match b
    case NoValues => s == []
    case Range(lo, hi) => lo in s && hi in s && forall x :: x in s ==> lo <= x <= hi
  }

  lemma BoundedUnion(a: Bounds, s: seq<int>, b: Bounds, u: seq<int>)
    requires Bounded(a, s) && Bounded(b, u)
    ensures Bounded(Union(a, b), s + u)
  {
    if a.NoValues? {
      assert s + u == u;
    } else if b.NoValues? {
      assert s + u == s;
    }
  }

  lemma SortedAroundSplit(left: seq<int>, v: int, right: seq<int>)
    requires Sorted(left + [v] + right)
    ensures Sorted(left) && Sorted(right)
    ensures forall x :: x in left ==> x <= v
    ensures forall x :: x in right ==> v <= x
  {
    var s := left + [v] + right;
    var n := |left|;
    assert s[n] == v;
    forall i, j | 0 <= i < j < |left| ensures left[i] <= left[j] {
      assert s[i] == left[i] && s[j] == left[j];
    }
    forall i, j | 0 <= i < j < |right| ensures right[i] <= right[j] {
      assert s[n + 1 + i] == right[i] && s[n + 1 + j] == right[j];
    }
    forall x | x in left ensures x <= v {
      var i :| 0 <= i < n && left[i] == x;
      assert s[i] == x;
    }
    forall x | x in right ensures v <= x {
      var i :| 0 <= i < |right| && right[i] == x;
      assert s[n + 1 + i] == x;
    }
  }

  lemma SortedAroundJoin(left: seq<int>, v: int, right: seq<int>)
    requires Sorted(left) && Sorted(right)
    requires forall x :: x in left ==> x <= v
    requires forall x :: x in right ==> v <= x
    ensures Sorted(left + [v] + right)
  {
    var s := left + [v] + right;
    var n := |left|;
    forall i, j | 0 <= i < j < |s| ensures s[i] <= s[j] {
      if j < n {
        assert s[i] == left[i] && s[j] == left[j];
      } else if i < n {
        assert s[i] == left[i] && s[i] in left;
        if j > n {
          assert s[j] == right[j - n - 1] && s[j] in right;
        }
      } else if i == n {
        assert s[j] == right[j - n - 1] && s[j] in right;
      } else {
        assert s[i] == right[i - n - 1] && s[j] == right[j - n - 1];
      }
    }
  }

  /** A sequence with `v` in the middle is sorted exactly when both sides
      are sorted, everything on the left is at most `v`, and everything on
      the right is at least `v`. */
  lemma SortedAround(left: seq<int>, v: int, right: seq<int>)
    ensures Sorted(left + [v] + right) <==>
      Sorted(left) && Sorted(right) &&
      (forall x :: x in left ==> x <= v) && (forall x :: x in right ==> v <= x)
  {
    if Sorted(left + [v] + right) {
      SortedAroundSplit(left, v, right);
    }
    if Sorted(left) && Sorted(right) &&
      (forall x :: x in left ==> x <= v) && (forall x :: x in right ==> v <= x)
    {
      SortedAroundJoin(left, v, right);
    }
  }

  /** The corrected fold computes whether the in-order sequence is sorted,
      together with its exact bounds. */
  lemma {:induction false} IsBstFoldCorrect(t: Tree<int>)
    ensures IsBstFold(t).ordered == Sorted(Visit(t, In))
    ensures Bounded(IsBstFold(t).bounds, Visit(t, In))
  {
    match t
    case Empty =>
    case Node(v, l, r) =>
      IsBstFoldCorrect(l);
      IsBstFoldCorrect(r);
      var left, right := Visit(l, In), Visit(r, In);
      var li, ri := IsBstFold(l), IsBstFold(r);
      assert Visit(t, In) == left + [v] + right;
      assert IsBstFold(t) == IsBstCombine(v, li, ri);
      SortedAround(left, v, right);
      assert BelowOrAt(li.bounds, v) <==> (forall x :: x in left ==> x <= v);
      assert AboveOrAt(ri.bounds, v) <==> (forall x :: x in right ==> v <= x);
      BoundedUnion(li.bounds, left, Range(v, v), [v]);
      BoundedUnion(Union(li.bounds, Range(v, v)), left + [v], ri.bounds, right);
  }

  /** The corrected `is_bst()` holds exactly when the in-order visit is
      non-decreasing: every node is at least everything on its left and at
      most everything on its right. */
  lemma IsBstIffSorted(t: Tree<int>)
    ensures IsBst(t) <==> Sorted(Visit(t, In))
  {
    IsBstFoldCorrect(t);
  }

  /** The tree that shows the difference: a root 1 with a left child 2 is
      not ordered, yet the source reports it as a BST. */
  lemma AsWrittenAcceptsUnordered()
    ensures IsBstAsWritten(Node(1, Node(2, Empty, Empty), Empty))
    ensures !IsBst(Node(1, Node(2, Empty, Empty), Empty))
  {
    var t := Node(1, Node(2, Empty, Empty), Empty);
    IsBstAsWrittenAlwaysTrue(t);
    IsBstIffSorted(t);
    assert Visit(t, In) == [2, 1];
  }
}
