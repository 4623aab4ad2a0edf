/**
 * The mutable state of an ETF strategy and the methods that update it: reconciliation of the
 * component ledger against the basket target, dispatch of the component orders, and the
 * trade-fill refresh. Orders leave through external calls; every request issued is appended to
 * the ghost log `sent`.
 *
 * The foreign lookups of the engine are parameters: `v` gives the ETF's exchange (from its
 * contract) and the latest ticks, `comps` the ordered component list of the basket.
 */
module EtfTemplate {
  import opened Wrappers
  import opened Orders
  import opened Basket
  import opened Slicer

  class EtfStrategy {
    /** The ETF that the basket backs. */
    const vtSymbol: Symbol
    /** Holdings per symbol; a missing symbol is held at 0, and reading it inserts a 0 entry. */
    var pos: Ledger
    /** The basket target, in basket units. */
    var targetBasketPos: int
    /** What each component still has to trade, with its keys in insertion order. */
    var requireBasketPos: map<Symbol, int>
    var requireOrder: seq<Symbol>
    /** The synthetic basket position; `None` is the infinite value left by a pass with no component. */
    var basketPos: Option<real>
    /** The ETF holding as last read from the ledger. */
    var etfPos: int
    /** Configured clip size; stored but read by none of the methods here. */
    var perOrderVol: int
    /** Every order request issued so far. */
    ghost var sent: seq<Call>

    ghost predicate Valid()
      reads this`requireBasketPos, this`requireOrder, this`basketPos
    {
      WellFormed(Pass(requireBasketPos, requireOrder, basketPos))
    }

    constructor (vtSymbol: Symbol)
      ensures Valid()
      ensures this.vtSymbol == vtSymbol && pos == map[] && targetBasketPos == 0
      ensures requireBasketPos == map[] && requireOrder == [] && basketPos == Some(0.0)
      ensures etfPos == 0 && perOrderVol == 100000 && sent == []
    {
      this.vtSymbol := vtSymbol;
      pos := map[];
      targetBasketPos := 0;
      requireBasketPos := map[];
      requireOrder := [];
      basketPos := Some(0.0);
      etfPos := 0;
      perOrderVol := 100000;
      sent := [];
    }

    /** Rebuild the required deltas and the synthetic basket position from scratch, and refresh
        the ETF position. The ledger's held quantities are unchanged; it only gains zero entries
        for the symbols read. */
    method CalcBasketPos(v: Venue, comps: seq<Component>)
      modifies this
      ensures Valid()
      ensures var p := Reconcile(v, comps, old(targetBasketPos), old(pos));
              requireBasketPos == p.required && requireOrder == p.order && basketPos == p.basketPos
      ensures etfPos == Held(old(pos), vtSymbol)
      ensures forall s :: Held(pos, s) == Held(old(pos), s)
      ensures pos.Keys == old(pos).Keys + IncludedSymbols(v, comps) + {vtSymbol}
      ensures targetBasketPos == old(targetBasketPos) && perOrderVol == old(perOrderVol) && sent == old(sent)
    {
      requireBasketPos, requireOrder := map[], [];
      ghost var ledger := pos;
      var target := targetBasketPos;
      var minRatio: Option<real> := None;
      for i := 0 to |comps|
        invariant Pass(requireBasketPos, requireOrder, minRatio) == Reconcile(v, comps[..i], target, ledger)
        invariant SameHoldings(pos, ledger)
        invariant pos.Keys == ledger.Keys + IncludedSymbols(v, comps[..i])
        modifies this`pos, this`requireBasketPos, this`requireOrder
      {
        PrefixStep(v, comps, i, target, ledger);
        minRatio := VisitComponent(v, comps[i], target, minRatio);
      }
      assert comps[..|comps|] == comps;
      ReconcileWellFormed(v, comps, target, ledger);
      basketPos := minRatio;
      etfPos := Held(pos, vtSymbol);
      pos := pos[vtSymbol := etfPos];
    }

    /** The body of the component loop of `CalcBasketPos`: skip `c` if it cannot trade, otherwise
        fold its ratio into the running minimum and record its nonzero need. */
    method VisitComponent(v: Venue, c: Component, target: int, minRatio: Option<real>) returns (newMin: Option<real>)
      modifies this`pos, this`requireBasketPos, this`requireOrder
      ensures Pass(requireBasketPos, requireOrder, newMin) ==
              Step(Pass(old(requireBasketPos), old(requireOrder), minRatio), v, c, target, old(pos))
      ensures forall s :: Held(pos, s) == Held(old(pos), s)
      ensures pos.Keys == old(pos).Keys + (if Included(v, c) then {c.sym} else {})
    {
      newMin := minRatio;
      if c.exchange != v.exchange {
        return;
      }
      if c.share == 0 {
        return;
      }
      if c.cashFlag == 2 {
        return;
      } else if c.cashFlag == 1 {
        if c.sym !in v.ticks {
          return;
        }
        var tick := v.ticks[c.sym];
        if tick.last == tick.limitUp || tick.last == tick.limitDown {
          return;
        }
      }
      var current := Held(pos, c.sym);
      pos := pos[c.sym := current];
      var ratio := current as real / c.share as real;
      if newMin.None? || ratio < newMin.value {
        newMin := Some(ratio);
      }
      var need := c.share * target - current;
      if need != 0 {
        if c.sym !in requireBasketPos {
          requireOrder := requireOrder + [c.sym];
        }
        requireBasketPos := requireBasketPos[c.sym := need];
      }
    }

    /** Refresh after a fill (the fill itself is already in the ledger): read the ETF position and
        reconcile. No order is sent and the target is kept. */
    method OnTrade(v: Venue, comps: seq<Component>)
      modifies this
      ensures Valid()
      ensures var p := Reconcile(v, comps, old(targetBasketPos), old(pos));
              requireBasketPos == p.required && requireOrder == p.order && basketPos == p.basketPos
      ensures etfPos == Held(old(pos), vtSymbol)
      ensures forall s :: Held(pos, s) == Held(old(pos), s)
      ensures pos.Keys == old(pos).Keys + IncludedSymbols(v, comps) + {vtSymbol}
      ensures targetBasketPos == old(targetBasketPos) && perOrderVol == old(perOrderVol) && sent == old(sent)
    {
      etfPos := Held(pos, vtSymbol);
      pos := pos[vtSymbol := etfPos];
      ghost var ledger := pos;
      CalcBasketPos(v, comps);
      ReconcileReadsHeldOnly(v, comps, targetBasketPos, ledger, old(pos));
    }

    /** Set the basket target, reconcile, and send one order per required delta, in the
        dictionary's order. */
    method SetBasketTarget(targetVolume: int, v: Venue, comps: seq<Component>)
      modifies this
      ensures Valid()
      ensures targetBasketPos == targetVolume
      ensures var p := Reconcile(v, comps, targetVolume, old(pos));
              requireBasketPos == p.required && requireOrder == p.order && basketPos == p.basketPos
      ensures etfPos == Held(old(pos), vtSymbol)
      ensures forall s :: Held(pos, s) == Held(old(pos), s)
      ensures pos.Keys == old(pos).Keys + IncludedSymbols(v, comps) + {vtSymbol}
      ensures perOrderVol == old(perOrderVol)
      ensures sent == old(sent) + Dispatch(requireOrder, requireBasketPos)
    {
      targetBasketPos := targetVolume;
      CalcBasketPos(v, comps);
      SendBasketOrders(requireOrder, requireBasketPos);
    }

    /** The dispatch loop of `SetBasketTarget`: one engine order per entry of the required deltas,
        in key order, LONG/OPEN for a positive delta and SHORT/CLOSE for a negative one. */
    method SendBasketOrders(keys: seq<Symbol>, required: map<Symbol, int>)
      requires forall k :: k in keys ==> k in required
      modifies this`sent
      ensures sent == old(sent) + Dispatch(keys, required)
    {
      for i := 0 to |keys|
        invariant sent == old(sent) + Dispatch(keys[..i], required)
      {
        DispatchPrefixStep(keys, required, i);
        var k := keys[i];
        var d := required[k];
        ghost var before := sent;
        if d > 0 {
          sent := sent + [EngineOrder(k, Long, Open, 0.0, d, false, false, false, None, BestOrLimit)];
        } else if d < 0 {
          sent := sent + [EngineOrder(k, Short, Close, 0.0, -d, false, false, false, None, BestOrLimit)];
        }
        assert sent == before + ToSeq(BasketOrder(k, d));
        assert old(sent) + Dispatch(keys[..i + 1], required) == before + ToSeq(BasketOrder(k, d));
      }
      assert keys[..|keys|] == keys;
    }

    /** Issue at most one clip toward `targetVolume` for the ETF itself; no field but the log
        changes. */
    method BuySellWithTarget(limitPrice: real, targetVolume: int, perOrderMax: int,
                             signalPrice: Option<real>, stop: bool, lock: bool, net: bool)
      modifies this`sent
      ensures sent == old(sent) + ToSeq(SliceOrder(etfPos, limitPrice, targetVolume, perOrderMax,
                                                   signalPrice, stop, lock, net))
    {
      var gap := targetVolume - etfPos;
      var volume := Min(Abs(gap), perOrderMax);
      if gap > 0 {
        sent := sent + [Buy(limitPrice, volume, signalPrice, stop, lock, net)];
      } else if gap < 0 {
        sent := sent + [Sell(limitPrice, volume, signalPrice, stop, lock, net)];
      }
    }

    /** Request the creation of `volume` ETF units. */
    method Purchase(volume: int)
      modifies this`sent
      ensures sent == old(sent) + [PurchaseOrder(volume)]
    {
      sent := sent + [SendOrder(Direction.Purchase, NoOffset, 0.0, volume, false)];
    }

    /** Request the redemption of `volume` ETF units. */
    method Redemption(volume: int)
      modifies this`sent
      ensures sent == old(sent) + [RedemptionOrder(volume)]
    {
      sent := sent + [SendOrder(Direction.Redemption, NoOffset, 0.0, volume, false)];
    }
  }

  /** Reconciling twice with unchanged target, components and ticks gives the same result: the
      zero entries the first pass adds to the ledger do not change what the second one reads. */
  method ReconcileTwice(s: EtfStrategy, v: Venue, comps: seq<Component>)
    modifies s
    ensures var p := Reconcile(v, comps, old(s.targetBasketPos), old(s.pos));
            s.requireBasketPos == p.required && s.requireOrder == p.order && s.basketPos == p.basketPos
    ensures s.etfPos == Held(old(s.pos), s.vtSymbol)
  {
    s.CalcBasketPos(v, comps);
    ghost var first := (s.requireBasketPos, s.requireOrder, s.basketPos, s.etfPos);
    ghost var ledger := s.pos;
    s.CalcBasketPos(v, comps);
    ReconcileReadsHeldOnly(v, comps, s.targetBasketPos, ledger, old(s.pos));
    assert (s.requireBasketPos, s.requireOrder, s.basketPos, s.etfPos) == first;
  }
}
