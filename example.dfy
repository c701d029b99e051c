/** The demonstration tree of the driver program: root 3, a left child 1
    whose right child is 2, and a right child 5 whose left child is 4. */
module Example {
  import opened Trees
  import opened Traversal
  import opened Bst
  import opened Filter

  function Sample(): (t: Tree<int>)
    ensures Size(t) == 5
  {
    var one := CreateValueNode(1, CreateEmptyNode(), CreateLeaf(2));
    var five := CreateValueNode(5, CreateLeaf(4), CreateEmptyNode());
    CreateValueNode(3, one, five)
  }

  /** Height 3, five nodes, and the in-order visit lists 1 to 5. */
  lemma SampleMetrics()
    ensures Height(Sample()) == 3
    ensures Visit(Sample(), In) == [1, 2, 3, 4, 5]
    ensures Visit(Sample(), Pre) == [3, 1, 2, 5, 4]
    ensures Visit(Sample(), Post) == [2, 1, 4, 5, 3]
  {
    var t := Sample();
    MetricsEquations(t);
    MetricsEquations(t.l);
    MetricsEquations(t.r);
    MetricsEquations(t.l.r);
    MetricsEquations(t.r.l);
  }

  /** The sample is ordered, and both the source's check and the
      corrected one say so. */
  lemma SampleIsBst()
    ensures IsBst(Sample()) && IsBstAsWritten(Sample())
  {
    IsBstIffSorted(Sample());
    SampleMetrics();
    IsBstAsWrittenAlwaysTrue(Sample());
  }

  /** Subtracting 2 from every payload gives root 1 and the in-order
      visit -1 to 3, with the shape unchanged. */
  lemma SampleMinusTwo()
    ensures Map(Sample(), x => x - 2).v == 1
    ensures Visit(Map(Sample(), x => x - 2), In) == [-1, 0, 1, 2, 3]
    ensures Height(Map(Sample(), x => x - 2)) == 3
  {
    var f := (x: int) => x - 2;
    SampleMetrics();
    MapKeepsShape(Sample(), f);
    VisitOfMap(Sample(), f, In);
    assert MapSeq(f, [1, 2, 3, 4, 5]) == [-1, 0, 1, 2, 3];
  }

  /** Accumulating `+` from 0 gives 15 in each of the three orders. */
  lemma SampleSums(o: Order)
    ensures FoldLeft(Plus, 0, Visit(Sample(), o)) == 15
  {
    SampleMetrics();
    AccumulateSumOrderFree(Sample(), o, In);
    FoldLeftPlusIsSum(0, [1, 2, 3, 4, 5]);
  }

  /** Keeping the even payloads: 3 and 1 are dropped, the deferred subtree
      under 5 is drained after 2, and the result is 2 with right child 4. */
  lemma SampleEvenFilter()
    ensures FilterTree(IsEven, Sample()) == CreateValueNode(2, CreateEmptyNode(), CreateLeaf(4))
    ensures Visit(FilterTree(IsEven, Sample()), In) == [2, 4]
    ensures IsBst(FilterTree(IsEven, Sample()))
  {
    var two, four := CreateLeaf(2), CreateLeaf(4);
    var one := Node(1, Empty, two);
    var five := Node(5, four, Empty);
    assert !IsEven(1) && IsEven(2) && !IsEven(3) && IsEven(4) && !IsEven(5);
    assert FilterStep(IsEven, four, false, []) == (four, []);
    assert FilterStep(IsEven, five, true, []) == (four, []);
    assert FilterStep(IsEven, Empty, true, [five]) == (four, []);
    assert FilterStep(IsEven, Empty, false, [five]) == (Empty, [five]);
    assert FilterStep(IsEven, two, true, [five]) == (Node(2, Empty, four), []);
    assert FilterStep(IsEven, one, true, [five]) == (Node(2, Empty, four), []);
    assert [] + [five] == [five];
    IsBstIffSorted(Node(2, Empty, four));
  }
}
