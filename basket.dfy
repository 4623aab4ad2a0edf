/**
 * Basket reconciliation of `ETFTemplate.calc_basket_pos` and the order set of
 * `ETFTemplate.set_basket_target`, as specification functions over the component list.
 *
 * `Reconcile` folds the components in list order and yields what one pass produces: the
 * required-delta dictionary (a map plus the insertion order of its keys) and the synthetic basket
 * position, `None` standing for the pass's `float('inf')` start value when no component counted.
 */
module Basket {
  import opened Wrappers
  import opened Orders

  type Exchange = string

  /** The position ledger; a symbol it does not mention is held at 0. */
  type Ledger = map<Symbol, int>

  function Held(pos: Ledger, s: Symbol): int
  {
    if s in pos then pos[s] else 0
  }

  /** A basket component: its symbol, its exchange, its quantity per basket unit, its cash flag. */
  datatype Component = Component(sym: Symbol, exchange: Exchange, share: int, cashFlag: int)

  /** The fields of the latest tick that the limit check compares. */
  datatype Tick = Tick(last: real, limitUp: real, limitDown: real)

  /** What the foreign lookups supply to one pass: the ETF's exchange and the latest ticks. */
  datatype Venue = Venue(exchange: Exchange, ticks: map<Symbol, Tick>)

  /** The last price sits on the limit-up or the limit-down price. */
  predicate Pinned(t: Tick)
  {
    t.last == t.limitUp || t.last == t.limitDown
  }

  /** A component takes part in a pass unless one of the four skip conditions holds. */
  predicate Included(v: Venue, c: Component): (r: bool)
    ensures r ==> c.share != 0
  {
    c.exchange == v.exchange && c.share != 0 && c.cashFlag != 2 &&
    (c.cashFlag == 1 ==> c.sym in v.ticks && !Pinned(v.ticks[c.sym]))
  }

  /** The quantity still to trade so that the component backs `target` basket units. */
  function Need(c: Component, target: int, pos: Ledger): int
  {
    c.share * target - Held(pos, c.sym)
  }

  /** How many basket units the holding of this component backs. */
  function Ratio(c: Component, pos: Ledger): real
    requires c.share != 0
  {
    Held(pos, c.sym) as real / c.share as real
  }

  /** One step of the running minimum; `None` is the infinite start value. */
  function MinRatio(m: Option<real>, r: real): (x: Option<real>)
    ensures x.Some? && x.value <= r && (m.Some? ==> x.value <= m.value)
    ensures x.value == r || (m.Some? && x.value == m.value)
  {
    if m.None? || r < m.value then Some(r) else m
  }

  /** The state of one pass: the required deltas, their keys in insertion order, the minimum. */
  datatype Pass = Pass(required: map<Symbol, int>, order: seq<Symbol>, basketPos: Option<real>)

  /** The keys are listed once each, in the dictionary and nowhere else, with nonzero values. */
  ghost predicate WellFormed(p: Pass)
  {
    (forall i, j :: 0 <= i < j < |p.order| ==> p.order[i] != p.order[j]) &&
    (forall s :: s in p.required <==> s in p.order) &&
    (forall s :: s in p.required ==> p.required[s] != 0)
  }

  /** The effect of one component on a pass (the body of the loop). */
  function Step(p: Pass, v: Venue, c: Component, target: int, pos: Ledger): (r: Pass)
    ensures p.order <= r.order && |r.order| <= |p.order| + 1
    ensures forall s :: s in p.required ==> s in r.required
  {
    if !Included(v, c) then p
    else
      var need := Need(c, target, pos);
      Pass(if need != 0 then p.required[c.sym := need] else p.required,
           if need != 0 && c.sym !in p.required then p.order + [c.sym] else p.order,
           MinRatio(p.basketPos, Ratio(c, pos)))
  }

  /** The result of a pass over `comps` for the basket target `target`. */
  function Reconcile(v: Venue, comps: seq<Component>, target: int, pos: Ledger): (p: Pass)
    ensures |p.order| <= |comps|
    decreases |comps|
  {
    if comps == [] then Pass(map[], [], None)
    else
      var n := |comps| - 1;
      Step(Reconcile(v, comps[..n], target, pos), v, comps[n], target, pos)
  }

  /** Every pass lists each key once, in the dictionary and nowhere else, with a nonzero value. */
  lemma {:induction false} ReconcileWellFormed(v: Venue, comps: seq<Component>, target: int, pos: Ledger)
    ensures WellFormed(Reconcile(v, comps, target, pos))
  {
    if comps != [] {
      ReconcileWellFormed(v, comps[..|comps| - 1], target, pos);
    }
  }

  /** The symbols of the components that take part in a pass (the ledger entries a pass reads). */
  ghost function IncludedSymbols(v: Venue, comps: seq<Component>): (syms: set<Symbol>)
    decreases |comps|
  {
    if comps == [] then {}
    else
      var n := |comps| - 1;
      assert forall i :: 0 <= i < n ==> comps[..n][i] == comps[i];
      IncludedSymbols(v, comps[..n]) + (if Included(v, comps[n]) then {comps[n].sym} else {})
  }

  /** Extending the component prefix by one component takes one `Step` and adds that component's
      symbol to the included symbols when it is included. */
  lemma PrefixStep(v: Venue, comps: seq<Component>, i: int, target: int, pos: Ledger)
    requires 0 <= i < |comps|
    ensures Reconcile(v, comps[..i + 1], target, pos) == Step(Reconcile(v, comps[..i], target, pos), v, comps[i], target, pos)
    ensures IncludedSymbols(v, comps[..i + 1]) ==
            IncludedSymbols(v, comps[..i]) + (if Included(v, comps[i]) then {comps[i].sym} else {})
  {
    assert comps[..i + 1][..i] == comps[..i];
  }

  /** No symbol occurs twice in the component list. */
  ghost predicate DistinctSymbols(comps: seq<Component>)
  {
    forall i, j :: 0 <= i < j < |comps| ==> comps[i].sym != comps[j].sym
  }

  /** A symbol is a key of the required deltas exactly when some included component with that
      symbol has a nonzero need. */
  lemma {:induction false} RequiredKeys(v: Venue, comps: seq<Component>, target: int, pos: Ledger, s: Symbol)
    ensures s in Reconcile(v, comps, target, pos).required <==>
            exists i :: 0 <= i < |comps| && comps[i].sym == s && Included(v, comps[i]) &&
                        Need(comps[i], target, pos) != 0
  {
    if comps != [] {
      var n := |comps| - 1;
      RequiredKeys(v, comps[..n], target, pos, s);
      assert forall i :: 0 <= i < n ==> comps[..n][i] == comps[i];
    }
  }

  /** The value recorded for a symbol is the need of the last included component with that
      symbol and a nonzero need: a later entry overwrites an earlier one. */
  lemma {:induction false} RequiredIsLastNeed(v: Venue, comps: seq<Component>, target: int, pos: Ledger, i: int)
    requires 0 <= i < |comps| && Included(v, comps[i]) && Need(comps[i], target, pos) != 0
    requires forall j :: i < j < |comps| && comps[j].sym == comps[i].sym ==>
               !Included(v, comps[j]) || Need(comps[j], target, pos) == 0
    ensures comps[i].sym in Reconcile(v, comps, target, pos).required
    ensures Reconcile(v, comps, target, pos).required[comps[i].sym] == Need(comps[i], target, pos)
  {
    var n := |comps| - 1;
    if i < n {
      assert forall j :: 0 <= j < n ==> comps[..n][j] == comps[j];
      RequiredIsLastNeed(v, comps[..n], target, pos, i);
    }
  }

  /** The component counts toward the required deltas: it is included and its need is nonzero. */
  ghost predicate Counts(v: Venue, c: Component, target: int, pos: Ledger)
  {
    Included(v, c) && Need(c, target, pos) != 0
  }

  /** Keys are ordered by first insertion: when key `a` precedes key `b` in the key order, some
      component counting for `a` comes before every component counting for `b`. Later entries
      for a key already present overwrite its value but do not move it. */
  lemma {:induction false} KeyOrderIsFirstInsertion(v: Venue, comps: seq<Component>, target: int, pos: Ledger, a: int, b: int)
    requires 0 <= a < b < |Reconcile(v, comps, target, pos).order|
    ensures var order := Reconcile(v, comps, target, pos).order;
            exists i :: 0 <= i < |comps| && Counts(v, comps[i], target, pos) && comps[i].sym == order[a] &&
                        forall j :: 0 <= j <= i && comps[j].sym == order[b] ==> !Counts(v, comps[j], target, pos)
  {
    var n := |comps| - 1;
    var prefix := comps[..n];
    var prev := Reconcile(v, prefix, target, pos);
    var order := Reconcile(v, comps, target, pos).order;
    ReconcileWellFormed(v, prefix, target, pos);
    assert forall k :: 0 <= k < n ==> prefix[k] == comps[k];
    if b < |prev.order| {
      assert order[a] == prev.order[a] && order[b] == prev.order[b];
      KeyOrderIsFirstInsertion(v, prefix, target, pos, a, b);
      var i :| 0 <= i < n && Counts(v, prefix[i], target, pos) && prefix[i].sym == prev.order[a] &&
               forall j :: 0 <= j <= i && prefix[j].sym == prev.order[b] ==> !Counts(v, prefix[j], target, pos);
      assert Counts(v, comps[i], target, pos) && comps[i].sym == order[a];
    } else {
      // `order[b]` was appended by the last component: no earlier component counts for it.
      assert order == prev.order + [comps[n].sym] && b == |prev.order|;
      assert order[a] == prev.order[a] && prev.order[a] in prev.required;
      RequiredKeys(v, prefix, target, pos, prev.order[a]);
      RequiredKeys(v, prefix, target, pos, comps[n].sym);
      var i :| 0 <= i < n && prefix[i].sym == prev.order[a] && Included(v, prefix[i]) && Need(prefix[i], target, pos) != 0;
      assert Counts(v, comps[i], target, pos) && comps[i].sym == order[a];
    }
  }

  /** Delta correctness: with distinct symbols, every included component has the key exactly when
      its need is nonzero, and then the value is `share * target - pos[sym]`. */
  lemma DeltaCorrect(v: Venue, comps: seq<Component>, target: int, pos: Ledger, i: int)
    requires DistinctSymbols(comps) && 0 <= i < |comps| && Included(v, comps[i])
    ensures var r := Reconcile(v, comps, target, pos).required;
            (comps[i].sym in r <==> Need(comps[i], target, pos) != 0) &&
            (comps[i].sym in r ==> r[comps[i].sym] == comps[i].share * target - Held(pos, comps[i].sym))
  {
    RequiredKeys(v, comps, target, pos, comps[i].sym);
    if Need(comps[i], target, pos) != 0 {
      RequiredIsLastNeed(v, comps, target, pos, i);
    }
  }

  /** Conservatism: the synthetic basket position is undefined exactly when no component counts;
      otherwise it is at most every included component's ratio and equal to one of them. */
  lemma {:induction false} BasketPosIsMinimum(v: Venue, comps: seq<Component>, target: int, pos: Ledger)
    ensures var b := Reconcile(v, comps, target, pos).basketPos;
            (b.None? <==> forall i :: 0 <= i < |comps| ==> !Included(v, comps[i])) &&
            (b.Some? ==> forall i :: 0 <= i < |comps| && Included(v, comps[i]) ==> b.value <= Ratio(comps[i], pos)) &&
            (b.Some? ==> exists i :: 0 <= i < |comps| && Included(v, comps[i]) && b.value == Ratio(comps[i], pos))
  {
    if comps != [] {
      var n := |comps| - 1;
      BasketPosIsMinimum(v, comps[..n], target, pos);
      assert forall i :: 0 <= i < n ==> comps[..n][i] == comps[i];
    }
  }

  /** A component skipped for its exchange, a zero share, cash flag 2, or cash flag 1 with no tick
      or a pinned price changes nothing: the pass without it gives the same result. */
  lemma {:induction false} SkippedComponentIgnored(v: Venue, comps: seq<Component>, target: int, pos: Ledger, i: int)
    requires 0 <= i < |comps|
    requires comps[i].exchange != v.exchange || comps[i].share == 0 || comps[i].cashFlag == 2 ||
             (comps[i].cashFlag == 1 && (comps[i].sym !in v.ticks || Pinned(v.ticks[comps[i].sym])))
    ensures Reconcile(v, comps[..i] + comps[i + 1..], target, pos) == Reconcile(v, comps, target, pos)
  {
    var n := |comps| - 1;
    var rest := comps[..i] + comps[i + 1..];
    if i == n {
      assert rest == comps[..n];
    } else {
      SkippedComponentIgnored(v, comps[..n], target, pos, i);
      assert rest[..n - 1] == comps[..n][..i] + comps[..n][i + 1..];
      assert rest[n - 1] == comps[n];
    }
  }

  /** A pass reads the ledger only through the held quantities, so ledgers that agree on every
      held quantity (one may carry extra zero entries) give the same pass. */
  lemma {:induction false} ReconcileReadsHeldOnly(v: Venue, comps: seq<Component>, target: int, pos1: Ledger, pos2: Ledger)
    requires forall s :: Held(pos1, s) == Held(pos2, s)
    ensures Reconcile(v, comps, target, pos1) == Reconcile(v, comps, target, pos2)
  {
    if comps != [] {
      var n := |comps| - 1;
      ReconcileReadsHeldOnly(v, comps[..n], target, pos1, pos2);
      assert Held(pos1, comps[n].sym) == Held(pos2, comps[n].sym);
    }
  }

  /** Extending the key prefix by one key appends that key's order, if any. */
  lemma DispatchPrefixStep(keys: seq<Symbol>, required: map<Symbol, int>, i: int)
    requires 0 <= i < |keys| && forall k :: k in keys ==> k in required
    ensures Dispatch(keys[..i + 1], required) ==
            Dispatch(keys[..i], required) + ToSeq(BasketOrder(keys[i], required[keys[i]]))
  {
    assert keys[..i + 1][..i] == keys[..i];
  }

  /** The position change a filled engine order brings. */
  function SignedVolume(c: Call): int
  {
    if c.EngineOrder? && c.direction == Long then c.volume
    else if c.EngineOrder? && c.direction == Short then -c.volume
    else 0
  }

  /** Two ledgers hold the same quantity of every symbol. */
  ghost predicate SameHoldings(pos1: Ledger, pos2: Ledger)
  {
    forall s :: Held(pos1, s) == Held(pos2, s)
  }

  /** The order `set_basket_target` sends for one entry of the required deltas: none for a zero
      delta, LONG/OPEN for a positive one, SHORT/CLOSE for a negative one, with the delta's
      magnitude as volume, price 0, BestOrLimit, and no stop, lock, net or signal price. */
  function BasketOrder(sym: Symbol, need: int): (o: Option<Call>)
    ensures o.None? <==> need == 0
    ensures o.Some? ==> o.value.EngineOrder? && o.value.vtSymbol == sym
    ensures o.Some? ==> (o.value.direction == Long && o.value.offset == Open <==> need > 0)
    ensures o.Some? ==> (o.value.direction == Short && o.value.offset == Close <==> need < 0)
    ensures o.Some? ==> o.value.volume > 0 && SignedVolume(o.value) == need
    ensures o.Some? ==> o.value.price == 0.0 && o.value.orderType == BestOrLimit && o.value.signalPrice == None
    ensures o.Some? ==> !o.value.stop && !o.value.lock && !o.value.net
  {
    if need > 0 then
      Some(EngineOrder(sym, Long, Open, 0.0, need, false, false, false, None, BestOrLimit))
    else if need < 0 then
      Some(EngineOrder(sym, Short, Close, 0.0, -need, false, false, false, None, BestOrLimit))
    else
      None
  }

  /** The orders sent for the keys `keys` of the required deltas, in that order. */
  function Dispatch(keys: seq<Symbol>, required: map<Symbol, int>): (out: seq<Call>)
    requires forall k :: k in keys ==> k in required
    ensures |out| <= |keys|
    decreases |keys|
  {
    if keys == [] then []
    else
      var n := |keys| - 1;
      assert forall k :: k in keys[..n] ==> k in keys;
      Dispatch(keys[..n], required) + ToSeq(BasketOrder(keys[n], required[keys[n]]))
  }

  /** One order per entry of the required deltas, in key order, each the entry's `BasketOrder`. */
  lemma {:induction false} DispatchOnePerEntry(keys: seq<Symbol>, required: map<Symbol, int>)
    requires forall k :: k in keys ==> k in required && required[k] != 0
    ensures var out := Dispatch(keys, required);
            |out| == |keys| &&
            forall i :: 0 <= i < |keys| ==> BasketOrder(keys[i], required[keys[i]]) == Some(out[i])
  {
    if keys != [] {
      var n := |keys| - 1;
      assert forall k :: k in keys[..n] ==> k in keys;
      DispatchOnePerEntry(keys[..n], required);
      var out := Dispatch(keys, required);
      forall i | 0 <= i < |keys|
        ensures BasketOrder(keys[i], required[keys[i]]) == Some(out[i])
      {
        if i < n {
          assert keys[..n][i] == keys[i];
        }
      }
    }
  }

  /** With distinct symbols, filling every order of a pass brings each included component's
      holding to `share * target`: its order, if any, carries exactly the missing quantity. */
  lemma FillingDispatchReachesTarget(v: Venue, comps: seq<Component>, target: int, pos: Ledger, i: int)
    requires DistinctSymbols(comps) && 0 <= i < |comps| && Included(v, comps[i])
    ensures var p := Reconcile(v, comps, target, pos);
            WellFormed(p) &&
            var out := Dispatch(p.order, p.required);
            (comps[i].sym !in p.order ==> Held(pos, comps[i].sym) == comps[i].share * target) &&
            forall j :: 0 <= j < |p.order| && p.order[j] == comps[i].sym ==>
              j < |out| && Held(pos, comps[i].sym) + SignedVolume(out[j]) == comps[i].share * target
  {
    var p := Reconcile(v, comps, target, pos);
    ReconcileWellFormed(v, comps, target, pos);
    DeltaCorrect(v, comps, target, pos, i);
    DispatchOnePerEntry(p.order, p.required);
  }
}
