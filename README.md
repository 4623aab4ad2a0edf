# ETF basket position logic

A Dafny model of the basket logic of `ETFTemplate`, the strategy template for trading an ETF
together with its component stocks. The template has three jobs:

- **Reconciliation** (`calc_basket_pos`). It walks the basket's component list. It skips a
  component that trades on another exchange than the ETF, that has a zero share, that has cash
  flag 2, or that has cash flag 1 and either no tick or a last price equal to limit-up or
  limit-down. For each remaining component it does two things:
  - it folds `pos / share` into a running minimum, which becomes the synthetic basket position;
  - it records the nonzero need `share * target - pos` in `require_basket_pos`.
- **Target dispatch** (`set_basket_target`). It stores the target, reconciles, and sends one
  engine order per entry of `require_basket_pos`: LONG/OPEN for a positive need, SHORT/CLOSE for
  the magnitude of a negative one.
- **Clip slicing** (`buy_sell_with_target`). It trades the ETF itself toward a target in clips
  of at most `per_order_max`.

Alongside these, `on_trade` refreshes the bookkeeping after a fill, and `purchase` and
`redemption` issue creation and redemption requests.

Files:
- `wrappers.dfy` defines `Option`.
- `orders.dfy` holds the order-request records and the purchase and redemption requests.
- `basket.dfy` holds the reconciliation and dispatch as specification functions, and the
  lemmas about them.
- `slicer.dfy` holds the clip slicer.
- `etf_template.dfy` holds the class `EtfStrategy`. Its fields are the template's state. Its
  methods update that state in place and are proved against the specification functions.
- `scenarios.dfy` holds worked examples.

Modelling choices:
- **Ledger.** `pos` is a `defaultdict(lambda: 0)`, and reading a missing key inserts it with
  value 0. The model keeps that: `CalcBasketPos` adds a zero entry for each symbol it reads,
  which is every included component and the ETF. It is proved that no held quantity changes
  (`Held`, which treats a missing key as 0). So reconciliation writes only
  `require_basket_pos`, `basket_pos` and `etf_pos` as far as held quantities go, but the
  dictionary's key set can grow.
- **Required deltas.** `require_basket_pos` is an insertion-ordered dictionary. It is modelled as
  a map plus the sequence of its keys in insertion order. Orders are sent in that order.
- **Repeated symbols.** If a symbol occurs twice in the component list, a later nonzero need
  overwrites the value but keeps the key's first position, as a Python dict does.
  `RequiredIsLastNeed` states the value and `KeyOrderIsFirstInsertion` the position. `DeltaCorrect` gives the plain per-component formula when
  symbols are distinct.
- **Infinity.** `float('inf')` becomes `None`. The field's initial value is 0 (line 46), so it
  starts as `Some(0.0)`.
- **Cash flags.** The component's cash flag is an integer, as in the code, where 2 means skip,
  1 means check the tick and any other value means trade.
- **The tick test on line 85.** It parses as `(tick and last == up) or last == down`. The
  missing-tick case has already been skipped by then, and a tick record is never falsy. So the
  test is `last == up || last == down` (`Pinned`).
- **Numbers.** Quantities are unbounded integers. The ratio `pos / share` is an exact `real`.
  Prices are `real`s that are only compared for equality.
- **Foreign lookups.** The results of the engine's `get_contract`, `get_basket_components` and
  `get_tick` are parameters: a `Venue` (the ETF's exchange and the ticks) and the component
  sequence.
- **Sent orders.** Every order call is appended to the ghost log `sent` as a `Call` record.
  - `Buy` and `Sell` record the inherited helpers.
  - `SendOrder` records the inherited generic `send_order`.
  - `EngineOrder` records the engine's `send_order`.

## Model

| member | source | states |
|---|---|---|
| Orders.PurchaseOrder | vnpy_ctastrategy/etf_template.py:141-146 | a creation request: direction PURCHASE, offset NONE, price 0, no lock, the caller's volume unchanged |
| Orders.RedemptionOrder | vnpy_ctastrategy/etf_template.py:148-153 | a redemption request: direction REDEMPTION, offset NONE, price 0, no lock, the caller's volume unchanged |
| Basket.MinRatio | vnpy_ctastrategy/etf_template.py:92-94 | one step of the running minimum: the result is at most the new ratio and the old minimum, and equals one of them; `None` (infinity) always gives way |
| Basket.ReconcileWellFormed | vnpy_ctastrategy/etf_template.py:65-99 | the dictionary rebuilt by a pass lists each key once, in the dictionary and in the key order alike, and never holds a zero need |
| Basket.Pinned | vnpy_ctastrategy/etf_template.py:85 | the limit test as the line parses once a tick exists: the last price equals limit-up or limit-down |
| Basket.Included | vnpy_ctastrategy/etf_template.py:71-88 | a component takes part only if it passes all four skip tests; an included component has a nonzero share, so its ratio is defined |
| Basket.Step | vnpy_ctastrategy/etf_template.py:90-99 | one iteration of the component loop only appends to the key order (at most one key) and never removes a key from the required deltas |
| Basket.Reconcile | vnpy_ctastrategy/etf_template.py:63-101 | a pass over the component list holds at most one key per component |
| Basket.KeyOrderIsFirstInsertion | vnpy_ctastrategy/etf_template.py:96-99 | keys are ordered by first insertion: when key `a` precedes key `b`, some component with a nonzero need for `a` comes before every such component for `b`; overwriting a value does not move its key |
| Basket.Dispatch | vnpy_ctastrategy/etf_template.py:163-189 | the loop over the dictionary sends at most one order per key |
| Basket.RequiredKeys | vnpy_ctastrategy/etf_template.py:71-99 | a symbol gets an entry if and only if some included component with that symbol has a nonzero need |
| Basket.RequiredIsLastNeed | vnpy_ctastrategy/etf_template.py:96-99 | an entry's value is the need of the last included component with that symbol and a nonzero need |
| Basket.DeltaCorrect | vnpy_ctastrategy/etf_template.py:90-99 | with distinct symbols, an included component has an entry if and only if its need is nonzero, and the entry is `share * target - pos[sym]` |
| Basket.BasketPosIsMinimum | vnpy_ctastrategy/etf_template.py:68-100 | the basket position is undefined (infinite) if and only if no component is included; otherwise it is at most `pos[c] / share_c` for every included component and equals one of those ratios |
| Basket.SkippedComponentIgnored | vnpy_ctastrategy/etf_template.py:71-88 | a component skipped for its exchange, a zero share, cash flag 2, or cash flag 1 with no tick or a price at limit-up or limit-down leaves both the entries and the basket position exactly as if it were absent from the list |
| Basket.ReconcileReadsHeldOnly | vnpy_ctastrategy/etf_template.py:43-101 | a pass depends on the ledger only through held quantities, so the zero entries a pass inserts do not change the next pass (idempotence) |
| Basket.BasketOrder | vnpy_ctastrategy/etf_template.py:163-189 | per entry: no order for 0, LONG/OPEN with volume `v` for `v > 0`, SHORT/CLOSE with volume `-v` for `v < 0`; the volume is positive, the signed volume equals the need; price 0, BestOrLimit, no stop, lock, net or signal price |
| Basket.DispatchOnePerEntry | vnpy_ctastrategy/etf_template.py:163-189 | when every need is nonzero, exactly one order per dictionary entry, in the dictionary's order, each the entry's order above |
| Basket.FillingDispatchReachesTarget | vnpy_ctastrategy/etf_template.py:96-99 | with distinct symbols, an included component without an order already holds `share * target`, and filling its order brings it to exactly `share * target` |
| Slicer.SliceOrder | vnpy_ctastrategy/etf_template.py:104-139 | no request if and only if the target equals `etf_pos`; a buy if and only if the gap is positive, a sell if and only if it is negative; volume `min(abs(gap), per_order_max)`, so never above either; price, signal price, stop, lock and net passed through |
| Slicer.ClipApproachesTarget | vnpy_ctastrategy/etf_template.py:120-139 | with a positive clip size, a completely filled clip moves the ETF position strictly toward the target without passing it, shrinking the gap by the clip's volume |
| Slicer.RepeatedClipsConverge | vnpy_ctastrategy/etf_template.py:120-139 | after `n` rounds of filled clips the gap is `max(abs(gap) - n * per_order_max, 0)`, with no overshoot, so the target is reached once `n * per_order_max` covers the gap |
| EtfTemplate.EtfStrategy.constructor | vnpy_ctastrategy/etf_template.py:41-48 | empty ledger, target 0, empty required deltas, basket position 0, ETF position 0, clip size 100000, nothing sent |
| EtfTemplate.EtfStrategy.CalcBasketPos | vnpy_ctastrategy/etf_template.py:63-101 | the required deltas, their key order and the basket position become the pass computed from the old ledger and target; `etf_pos` becomes `pos[vt_symbol]`; held quantities, target and sent orders are unchanged; the ledger gains zero entries for exactly the included symbols and the ETF |
| EtfTemplate.EtfStrategy.VisitComponent | vnpy_ctastrategy/etf_template.py:71-99 | one iteration of the component loop is one step of the pass; it inserts at most the component's own zero ledger entry |
| EtfTemplate.EtfStrategy.OnTrade | vnpy_ctastrategy/etf_template.py:59-61 | `etf_pos` becomes `pos[vt_symbol]` and the pass is recomputed; the target and the sent orders are unchanged |
| EtfTemplate.EtfStrategy.SetBasketTarget | vnpy_ctastrategy/etf_template.py:155-189 | the target becomes the argument, the pass is recomputed for it, and the orders sent are exactly the dispatch of the new dictionary |
| EtfTemplate.EtfStrategy.SendBasketOrders | vnpy_ctastrategy/etf_template.py:163-189 | the loop over the dictionary appends exactly the dispatch of its entries, in order |
| EtfTemplate.EtfStrategy.BuySellWithTarget | vnpy_ctastrategy/etf_template.py:104-139 | appends the slicer's request (or nothing) and changes no other field |
| EtfTemplate.EtfStrategy.Purchase | vnpy_ctastrategy/etf_template.py:141-146 | appends one creation request and changes nothing else |
| EtfTemplate.EtfStrategy.Redemption | vnpy_ctastrategy/etf_template.py:148-153 | appends one redemption request and changes nothing else |
| EtfTemplate.ReconcileTwice | vnpy_ctastrategy/etf_template.py:63-101 | two passes with unchanged target, components and ticks leave the same deltas, key order, basket position and ETF position as one |
| Scenarios.BothComponentsTrade | vnpy_ctastrategy/etf_template.py:90-100 | target 100, A (share 1, holds 40), B (share 2, holds 70): needs A 60, B 130; basket position 35 |
| Scenarios.PinnedComponentLeftOut | vnpy_ctastrategy/etf_template.py:81-88 | the same basket with B at its limit-up price: only A's need 60 remains; basket position 40 |
| Scenarios.TargetZeroNeeds | vnpy_ctastrategy/etf_template.py:96-99 | target 0 holding A 60, B 130: needs -60 and -130 |
| Scenarios.TargetZeroOrders | vnpy_ctastrategy/etf_template.py:177-189 | those needs go out as SHORT/CLOSE orders of 60 and 130 |
| Scenarios.SlicerClips | vnpy_ctastrategy/etf_template.py:120-139 | from 0 toward 500000 in clips of 100000: buy 100000; nothing at the target; five filled clips reach it |

## Left out

- Parameter persistence and reporting are not modelled: the `variables` list, `update_setting`
  and `get_data`, lines 50-57 and 191-197. They serve the external UI and engine. The `inited`
  and `trading` flags belong to the base class's lifecycle and are not modelled either.
- `write_log` (line 86) is a logging side effect only and is not modelled.
- The base class `CtaTemplate` is not part of this model. Its `buy`, `sell` and `send_order` are
  recorded as `Buy`, `Sell` and `SendOrder` calls, and so is the engine's `send_order`. How
  those calls turn into orders is not modelled. Neither are the order ids they return, which
  `purchase` and `redemption` pass back to their caller.
- The engine lookups `get_contract`, `get_basket_components` and `get_tick` are parameters. A
  missing contract, which makes the Python raise on `contract.exchange`, is not modelled: the
  exchange is always supplied.
- `on_trade` does not read its trade argument, so the model omits it.
- Fill processing (how `pos` grows on a fill) happens before `on_trade`, outside this file, and
  is not modelled.
- Slicer.ClipApproachesTarget: assumes that a buy raises the ETF position by its volume and a
  sell lowers it, which is the base class's mapping and is not visible here. It also assumes a
  positive clip size. The source does not guard `per_order_max`: with a value of 0 or less,
  `SliceOrder` still returns the request the code sends.
- Slicer.RepeatedClipsConverge: rests on the same fill and clip-size assumptions as
  ClipApproachesTarget.
- Python float arithmetic is not modelled. Quantities are integers and `pos / share` is an exact
  rational, so rounding in the ratio and in the minimum is not captured.
- The unused `per_order_vol` field is stored but has no behaviour.
- Concurrency: the template is single-threaded, so there is none to model.
