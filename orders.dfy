/**
 * Order requests issued by the ETF template. Sending an order is an external effect, so each
 * call that the template makes to an order boundary is recorded as one `Call` value:
 *  - `Buy` / `Sell`: the inherited helpers of the strategy base class;
 *  - `SendOrder`: the inherited generic `send_order` (used for creation and redemption);
 *  - `EngineOrder`: a direct call to the engine's `send_order` naming a component symbol.
 */
module Orders {
  import opened Wrappers

  /** An instrument identifier such as "510300.SSE". */
  type Symbol = string

  datatype Direction = Long | Short | Purchase | Redemption

  /** `NoOffset` stands for `Offset.NONE`. */
  datatype Offset = NoOffset | Open | Close

  /** `Limit` is what the inherited helpers use; basket orders ask for `BestOrLimit`. */
  datatype OrderType = Limit | BestOrLimit

  datatype Call =
    | Buy(price: real, volume: int, signalPrice: Option<real>, stop: bool, lock: bool, net: bool)
    | Sell(price: real, volume: int, signalPrice: Option<real>, stop: bool, lock: bool, net: bool)
    | SendOrder(direction: Direction, offset: Offset, price: real, volume: int, lock: bool)
    | EngineOrder(vtSymbol: Symbol, direction: Direction, offset: Offset, price: real, volume: int,
                  stop: bool, lock: bool, net: bool, signalPrice: Option<real>, orderType: OrderType)

  /** A creation (subscription) request for `volume` ETF units, sent at price 0 without offset. */
  function PurchaseOrder(volume: int): (c: Call)
    ensures c.SendOrder? && c.direction == Purchase && c.offset == NoOffset
    ensures c.price == 0.0 && c.volume == volume && !c.lock
  {
    SendOrder(Purchase, NoOffset, 0.0, volume, false)
  }

  /** A redemption request for `volume` ETF units, sent at price 0 without offset. */
  function RedemptionOrder(volume: int): (c: Call)
    ensures c.SendOrder? && c.direction == Redemption && c.offset == NoOffset
    ensures c.price == 0.0 && c.volume == volume && !c.lock
  {
    SendOrder(Redemption, NoOffset, 0.0, volume, false)
  }
}
