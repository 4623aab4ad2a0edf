/** Worked examples of the basket and slicer behaviour, checked against the model. */
module Scenarios {
  import opened Wrappers
  import opened Orders
  import opened Basket
  import opened Slicer

  const A := Component("A.SSE", "SSE", 1, 0)
  const B := Component("B.SSE", "SSE", 2, 1)
  const Holdings: Ledger := map["A.SSE" := 40, "B.SSE" := 70]
  const Filled: Ledger := map["A.SSE" := 60, "B.SSE" := 130]

  /** Target 100 with A (share 1, holding 40) and B (share 2, holding 70) both tradable: A needs
      60, B needs 130, and the basket position is min(40, 35) = 35. */
  lemma BothComponentsTrade()
    ensures var v := Venue("SSE", map["B.SSE" := Tick(10.0, 11.0, 9.0)]);
            Reconcile(v, [A, B], 100, Holdings) ==
            Pass(map["A.SSE" := 60, "B.SSE" := 130], ["A.SSE", "B.SSE"], Some(35.0))
  {
    var v := Venue("SSE", map["B.SSE" := Tick(10.0, 11.0, 9.0)]);
    assert [A, B][..1] == [A];
    assert [A][..0] == [];
    assert Reconcile(v, [A], 100, Holdings) == Pass(map["A.SSE" := 60], ["A.SSE"], Some(40.0));
  }

  /** The same basket with B's last price at its limit-up price: B is left out, only A's need
      remains and the basket position is A's 40. */
  lemma PinnedComponentLeftOut()
    ensures var v := Venue("SSE", map["B.SSE" := Tick(11.0, 11.0, 9.0)]);
            Reconcile(v, [A, B], 100, Holdings) == Pass(map["A.SSE" := 60], ["A.SSE"], Some(40.0))
  {
    var v := Venue("SSE", map["B.SSE" := Tick(11.0, 11.0, 9.0)]);
    assert [A, B][..1] == [A];
    assert [A][..0] == [];
    assert Reconcile(v, [A], 100, Holdings) == Pass(map["A.SSE" := 60], ["A.SSE"], Some(40.0));
    assert !Included(v, B);
  }

  /** Target 0 after holding A = 60 and B = 130: A needs -60 and B needs -130. */
  lemma TargetZeroNeeds()
    ensures var v := Venue("SSE", map["B.SSE" := Tick(10.0, 11.0, 9.0)]);
            Reconcile(v, [A, B], 0, Filled) ==
            Pass(map["A.SSE" := -60, "B.SSE" := -130], ["A.SSE", "B.SSE"], Some(60.0))
  {
    var v := Venue("SSE", map["B.SSE" := Tick(10.0, 11.0, 9.0)]);
    assert [A, B][..1] == [A];
    assert [A][..0] == [];
    assert Held(Filled, "A.SSE") == 60 && Held(Filled, "B.SSE") == 130;
    assert Reconcile(v, [A], 0, Filled) == Step(Pass(map[], [], None), v, A, 0, Filled);
    assert Ratio(B, Filled) == 65.0;
  }

  /** Those needs are sent as SHORT/CLOSE orders of 60 and 130, in that order. */
  lemma TargetZeroOrders()
    ensures Dispatch(["A.SSE", "B.SSE"], map["A.SSE" := -60, "B.SSE" := -130]) ==
            [EngineOrder("A.SSE", Short, Close, 0.0, 60, false, false, false, None, BestOrLimit),
             EngineOrder("B.SSE", Short, Close, 0.0, 130, false, false, false, None, BestOrLimit)]
  {
  }

  /** From 0 toward 500000 with clips of 100000 the slicer buys 100000; at the target it sends
      nothing; five filled clips reach the target. */
  lemma SlicerClips()
    ensures SliceOrder(0, 1.5, 500000, 100000, None, false, false, false) ==
            Some(Buy(1.5, 100000, None, false, false, false))
    ensures SliceOrder(500000, 1.5, 500000, 100000, None, false, false, false) == None
    ensures Drive(0, 500000, 100000, 5) == 500000
  {
  }
}
