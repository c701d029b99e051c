/** The memoising node payload behind `lazy_map`: a node either holds its
    value outright or holds a creator that is run the first time the value
    is asked for, after which the computed value is kept. */
module Lazy {
  import opened Trees
  import opened Traversal

  datatype Option<T> = None | Some(value: T)

  /** The payload slot of one node: the value, the flag saying it has been
      computed, and the optional creator. `model` is the value the slot
      stands for; `calls` counts how often the creator has been run. */
  class Cell<T(0)> {
    const creator: Option<() -> T>
    var value: T
    var created: bool
    ghost const model: T
    ghost var calls: nat

    /** An eager slot holds `model` and never runs anything; a lazy slot's
        `model` is what its creator returns, it holds that value once
        created, and its creator has run exactly once iff it is created. */
    ghost predicate Valid()
      reads this
    {
      (creator.Some? ==> model == creator.value()) &&
      (creator.None? ==> value == model && !created) &&
      (created ==> value == model) &&
      calls == (if created then 1 else 0)
    }

    /** The node constructor taking a value. */
    constructor Eager(x: T)
      ensures Valid() && model == x && creator.None? && calls == 0
    {
      creator := None;
      value := x;
      created := false;
      model := x;
      calls := 0;
    }

    /** The node constructor taking a value creator: nothing is computed yet. */
    constructor Pending(c: () -> T)
      ensures Valid() && model == c() && creator == Some(c)
      ensures !created && calls == 0
    {
      creator := Some(c);
      created := false;
      model := c();
      calls := 0;
    }

    /** `get_value()`: runs the creator only when there is one and it has
        not run yet, then returns the stored value. The result is always
        `model`, and afterwards a lazy slot is created. */
    method GetValue() returns (x: T)
      requires Valid()
      modifies this
      ensures Valid() && x == model
      ensures created <==> creator.Some?
      ensures calls == old(calls) + (if creator.Some? && !old(created) then 1 else 0)
      ensures calls <= 1
    {
      if creator.Some? && !created {
        value := creator.value();
        created := true;
        calls := calls + 1;
      }
      x := value;
    }
  }

  /** The slots of a tree of nodes. */
  ghost function Cells<T(0)>(t: Tree<Cell<T>>): (res: set<Cell<T>>)
  {
    match t
    case Empty => {}
    case Node(c, l, r) => {c} + Cells(l) + Cells(r)
  }

  /** The tree of values a tree of slots stands for. */
  ghost function Denote<T(0)>(t: Tree<Cell<T>>): (res: Tree<T>)
  {
    match t
    case Empty => Empty
    case Node(c, l, r) => Node(c.model, Denote(l), Denote(r))
  }

  ghost predicate AllValid<T(0)>(t: Tree<Cell<T>>)
    reads Cells(t)
  {
    forall c :: c in Cells(t) ==> c.Valid()
  }

  /** The slots of an allocated tree are allocated. */
  lemma {:induction false} CellsAllocated<T(0)>(t: Tree<Cell<T>>)
    ensures forall c :: c in Cells(t) ==> allocated(c)
  {
    match t
    case Empty =>
    case Node(_, l, r) =>
      CellsAllocated(l);
      CellsAllocated(r);
  }

  /** Builds eager slots for a tree of values, as `createValueNode(value, ...)` does. */
  method Store<T(0)>(t: Tree<T>) returns (lt: Tree<Cell<T>>)
    ensures Denote(lt) == t && AllValid(lt) && fresh(Cells(lt))
    ensures forall c :: c in Cells(lt) ==> c.creator.None?
  {
    if t.Empty? {
      return Empty;
    }
    var ll := Store(t.l);
    CellsAllocated(ll);
    label BuiltLeft:
    var lr := Store(t.r);
    CellsAllocated(lr);
    label BuiltRight:
    var c := new Cell<T>.Eager(t.v);
    lt := Node(c, ll, lr);
    forall d | d in Cells(lt) ensures d.Valid() {
      if d in Cells(ll) {
        assert old@BuiltLeft(d.Valid());
      } else if d in Cells(lr) {
        assert old@BuiltRight(d.Valid());
      }
    }
  }

  /** One node of the denotation of `lazy_map`: a node whose slot stands
      for the transformed payload, over children that denote the mapped
      children, denotes the mapped node. */
  lemma DenoteMapNode<T(0)>(t: Tree<Cell<T>>, f: T -> T, r: Tree<Cell<T>>)
    requires t.Node? && r.Node?
    requires r.v.model == f(t.v.model)
    requires Denote(r.l) == Map(Denote(t.l), f) && Denote(r.r) == Map(Denote(t.r), f)
    ensures Denote(r) == Map(Denote(t), f)
  {
  }

  /** A slot that is valid and whose creator, if any, has run. */
  ghost predicate Settled<T(0)>(c: Cell<T>)
    reads c
  {
    c.Valid() && (c.created <==> c.creator.Some?)
  }

  /** A valid lazy slot whose creator has not run. */
  ghost predicate Unread<T(0)>(c: Cell<T>)
    reads c
  {
    c.Valid() && c.creator.Some? && !c.created && c.calls == 0
  }

  /** `lazy_map(transformer)`: the input payload of each node is read at
      once (so a lazy input slot is forced and stays valid), and each output
      node gets a fresh slot whose creator applies the transformer to that
      payload. No transformer call happens here: every output slot is
      unread, and the values they stand for are those of the eager `map`. */
  method LazyMap<T(0)>(t: Tree<Cell<T>>, f: T -> T) returns (r: Tree<Cell<T>>)
    requires AllValid(t)
    modifies Cells(t)
    ensures forall c :: c in Cells(t) ==> Settled(c)
    ensures forall c :: c in Cells(r) ==> Unread(c)
    ensures fresh(Cells(r))
    ensures Denote(r) == Map(Denote(t), f)
    decreases t
  {
    if t.Empty? {
      return Empty;
    }
    CellsAllocated(t);
    var x := t.v.GetValue();
    forall d | d in Cells(t) ensures d.Valid() {
      if d != t.v {
        assert old(d.Valid());
      }
    }
    label ReadRoot:
    var ml := LazyMap(t.l, f);
    CellsAllocated(ml);
    label MappedLeft:
    forall d | d in Cells(t.r) ensures d.Valid() {
      if d !in Cells(t.l) {
        assert old@ReadRoot(d.Valid());
      }
    }
    var mr := LazyMap(t.r, f);
    CellsAllocated(mr);
    label MappedRight:
    var c := new Cell<T>.Pending(() => f(x));
    r := Node(c, ml, mr);
    assert c.model == f(x);
    DenoteMapNode(t, f, r);
    forall d | d in Cells(t) ensures Settled(d) {
      if d in Cells(t.r) {
        assert old@MappedRight(Settled(d));
      } else if d in Cells(t.l) {
        assert old@MappedLeft(Settled(d));
      } else {
        assert old@ReadRoot(Settled(d));
      }
    }
    forall d | d in Cells(r) ensures Unread(d) {
      if d in Cells(ml) {
        assert old@MappedLeft(Unread(d));
      } else if d in Cells(mr) {
        assert old@MappedRight(Unread(d));
      }
    }
  }

  /** `apply` over a tree of slots, collecting the values that `value()`
      returns in the order's sequence: the collected sequence is the visit
      of the denoted tree, and every lazy slot read is now created. */
  method ReadValues<T(0)>(t: Tree<Cell<T>>, o: Order) returns (s: seq<T>)
    requires AllValid(t)
    modifies Cells(t)
    ensures AllValid(t)
    ensures s == Visit(Denote(t), o)
    ensures forall c :: c in Cells(t) ==> (c.created <==> c.creator.Some?)
    decreases t
  {
    if t.Empty? {
      return [];
    }
    CellsAllocated(t);
    var root, l, r := t.v, t.l, t.r;
    if o == In {
      var sl := ReadValues(l, o);
      label FirstIn:
      var x := root.GetValue();
      label SecondIn:
      forall d | d in Cells(r) ensures d.Valid() {
        if d != root && d !in Cells(l) {
          assert old(d.Valid());
        } else if d != root {
          assert old@FirstIn(d.Valid());
        }
      }
      var sr := ReadValues(r, o);
      s := sl + [x] + sr;
      forall d | d in Cells(t) ensures Settled(d) {
        if d in Cells(r) {
        } else if d == root {
          assert old@SecondIn(Settled(d));
        } else {
          assert old@FirstIn(Settled(d));
        }
      }
    } else if o == Pre {
      var x := root.GetValue();
      label FirstPre:
      forall d | d in Cells(l) ensures d.Valid() {
        if d != root {
          assert old(d.Valid());
        }
      }
      var sl := ReadValues(l, o);
      label SecondPre:
      forall d | d in Cells(r) ensures d.Valid() {
        if d !in Cells(l) && d != root {
          assert old(d.Valid());
        } else if d !in Cells(l) {
          assert old@FirstPre(d.Valid());
        }
      }
      var sr := ReadValues(r, o);
      s := [x] + sl + sr;
      forall d | d in Cells(t) ensures Settled(d) {
        if d in Cells(r) {
        } else if d in Cells(l) {
          assert old@SecondPre(Settled(d));
        } else {
          assert old@FirstPre(Settled(d));
        }
      }
    } else {
      var sl := ReadValues(l, o);
      label FirstPost:
      forall d | d in Cells(r) ensures d.Valid() {
        if d !in Cells(l) {
          assert old(d.Valid());
        }
      }
      var sr := ReadValues(r, o);
      label SecondPost:
      assert root.Valid() by {
        if root !in Cells(r) && root !in Cells(l) {
          assert old(root.Valid());
        } else if root !in Cells(r) {
          assert old@FirstPost(root.Valid());
        }
      }
      var x := root.GetValue();
      s := sl + sr + [x];
      forall d | d in Cells(t) ensures Settled(d) {
        if d == root {
        } else if d in Cells(r) {
          assert old@SecondPost(Settled(d));
        } else {
          assert old@FirstPost(Settled(d));
        }
      }
    }
  }

  /** `fold(operation, init)` over a tree of slots, and with it `height`,
      `size` and `is_bst`: each node's `value()` is read before its
      subtrees are folded, so every lazy slot's creator has run once
      afterwards, and the result is the fold of the denoted tree. */
  method LazyFold<T(0), R>(t: Tree<Cell<T>>, op: (T, R, R) -> R, init: R) returns (res: R)
    requires AllValid(t)
    modifies Cells(t)
    ensures forall c :: c in Cells(t) ==> Settled(c)
    ensures res == Fold(Denote(t), op, init)
    decreases t
  {
    if t.Empty? {
      return init;
    }
    CellsAllocated(t);
    var root, l, r := t.v, t.l, t.r;
    var x := root.GetValue();
    label ReadRoot:
    forall d | d in Cells(l) ensures d.Valid() {
      if d != root {
        assert old(d.Valid());
      }
    }
    var lResult := LazyFold(l, op, init);
    label FoldedLeft:
    forall d | d in Cells(r) ensures d.Valid() {
      if d !in Cells(l) && d != root {
        assert old(d.Valid());
      } else if d !in Cells(l) {
        assert old@ReadRoot(d.Valid());
      }
    }
    var rResult := LazyFold(r, op, init);
    res := op(x, lResult, rResult);
    forall d | d in Cells(t) ensures Settled(d) {
      if d in Cells(r) {
      } else if d in Cells(l) {
        assert old@FoldedLeft(Settled(d));
      } else {
        assert old@ReadRoot(Settled(d));
      }
    }
  }

  /** `height()` of a tree of slots: the height of the denoted tree, and
      reading it runs every pending creator. */
  method LazyHeight<T(0)>(t: Tree<Cell<T>>) returns (h: nat)
    requires AllValid(t)
    modifies Cells(t)
    ensures forall c :: c in Cells(t) ==> Settled(c)
    ensures h == Height(Denote(t))
  {
    h := LazyFold<T, nat>(t, (x: T, hl: nat, hr: nat) => Max(hl, hr) + 1, 0);
  }

  /** `size()` of a tree of slots: the size of the denoted tree, and
      reading it runs every pending creator. */
  method LazySize<T(0)>(t: Tree<Cell<T>>) returns (n: nat)
    requires AllValid(t)
    modifies Cells(t)
    ensures forall c :: c in Cells(t) ==> Settled(c)
    ensures n == Size(Denote(t))
  {
    n := LazyFold<T, nat>(t, (x: T, nl: nat, nr: nat) => nl + nr + 1, 0);
  }

  /** `lazy_map(f).height()`: the map runs no transformer, and the height
      that follows runs each new slot's creator exactly once; the height is
      that of the input. */
  method LazyMapThenHeight<T(0)>(t: Tree<Cell<T>>, f: T -> T) returns (r: Tree<Cell<T>>, h: nat)
    requires AllValid(t)
    modifies Cells(t)
    ensures fresh(Cells(r))
    ensures Denote(r) == Map(Denote(t), f)
    ensures h == Height(Denote(t))
    ensures forall c :: c in Cells(t) ==> Settled(c)
    ensures forall c :: c in Cells(r) ==> c.creator.Some? && c.created && c.calls == 1 && c.value == c.model
  {
    CellsAllocated(t);
    r := LazyMap(t, f);
    label Mapped:
    h := LazyHeight(r);
    forall d | d in Cells(t) ensures Settled(d) {
      assert old@Mapped(Settled(d));
    }
    MapKeepsShape(Denote(t), f);
  }
}
