/**
 * `ETFTemplate.buy_sell_with_target`: trade the ETF itself toward a target position in clips of at
 * most `perOrderMax`. One call issues at most one request to the inherited buy/sell helpers and
 * changes no field of the strategy, so it is a function from the current ETF position to the
 * request it issues.
 */
module Slicer {
  import opened Wrappers
  import opened Orders

  function Abs(x: int): nat
  {
    if x < 0 then -x else x
  }

  function Min(a: int, b: int): int
  {
    if b < a then b else a
  }

  function Max(a: int, b: int): int
  {
    if a < b then b else a
  }

  /** The request issued to move `etfPos` toward `targetVolume`: nothing at the target, a buy
      below it, a sell above it, for the gap capped at `perOrderMax`; price, signal price and the
      stop, lock and net flags are passed through. */
  function SliceOrder(etfPos: int, limitPrice: real, targetVolume: int, perOrderMax: int,
                      signalPrice: Option<real>, stop: bool, lock: bool, net: bool): (r: Option<Call>)
    ensures r.None? <==> targetVolume == etfPos
    ensures r.Some? ==> r.value.Buy? || r.value.Sell?
    ensures r.Some? ==> (r.value.Buy? <==> targetVolume > etfPos) && (r.value.Sell? <==> targetVolume < etfPos)
    ensures r.Some? ==> r.value.volume <= perOrderMax && r.value.volume <= Abs(targetVolume - etfPos)
    ensures r.Some? ==> r.value.volume == perOrderMax || r.value.volume == Abs(targetVolume - etfPos)
    ensures r.Some? ==> r.value.price == limitPrice && r.value.signalPrice == signalPrice
    ensures r.Some? ==> r.value.stop == stop && r.value.lock == lock && r.value.net == net
  {
    var gap := targetVolume - etfPos;
    var volume := Min(Abs(gap), perOrderMax);
    if gap > 0 then Some(Buy(limitPrice, volume, signalPrice, stop, lock, net))
    else if gap < 0 then Some(Sell(limitPrice, volume, signalPrice, stop, lock, net))
    else None
  }

  /** The ETF position once a buy or sell clip has been completely filled. */
  function FillClip(etfPos: int, c: Call): int
  {
    match c
    case Buy(_, volume, _, _, _, _) => etfPos + volume
    case Sell(_, volume, _, _, _, _) => etfPos - volume
    case _ => etfPos
  }

  /** With a positive clip size, a filled clip moves the position strictly toward the target
      and never past it; the remaining gap shrinks by the clip's volume. */
  lemma ClipApproachesTarget(etfPos: int, limitPrice: real, targetVolume: int, perOrderMax: int,
                             signalPrice: Option<real>, stop: bool, lock: bool, net: bool)
    requires perOrderMax > 0
    ensures var r := SliceOrder(etfPos, limitPrice, targetVolume, perOrderMax, signalPrice, stop, lock, net);
            r.Some? ==>
              var after := FillClip(etfPos, r.value);
              (targetVolume > etfPos ==> etfPos < after <= targetVolume) &&
              (targetVolume < etfPos ==> targetVolume <= after < etfPos) &&
              Abs(targetVolume - after) == Abs(targetVolume - etfPos) - r.value.volume
  {
  }

  /** The ETF position after `rounds` calls, each of whose clips is completely filled before the
      next call (prices and flags do not affect the fill). */
  function Drive(etfPos: int, targetVolume: int, perOrderMax: int, rounds: nat): int
    decreases rounds
  {
    if rounds == 0 then etfPos
    else
      match SliceOrder(etfPos, 0.0, targetVolume, perOrderMax, None, false, false, false)
      case None => etfPos
      case Some(c) => Drive(FillClip(etfPos, c), targetVolume, perOrderMax, rounds - 1)
  }

  /** Repeated filled clips close the gap by `perOrderMax` per round without overshooting, so
      the target is reached once `rounds * perOrderMax` covers the initial gap. */
  lemma {:induction false} RepeatedClipsConverge(etfPos: int, targetVolume: int, perOrderMax: int, rounds: nat)
    requires perOrderMax > 0
    ensures var after := Drive(etfPos, targetVolume, perOrderMax, rounds);
            Abs(targetVolume - after) == Max(Abs(targetVolume - etfPos) - rounds * perOrderMax, 0) &&
            (targetVolume >= etfPos ==> etfPos <= after <= targetVolume) &&
            (targetVolume <= etfPos ==> targetVolume <= after <= etfPos) &&
            (rounds * perOrderMax >= Abs(targetVolume - etfPos) ==> after == targetVolume)
    decreases rounds
  {
    if rounds > 0 {
      assert rounds * perOrderMax == (rounds - 1) * perOrderMax + perOrderMax;
      assert (rounds - 1) * perOrderMax >= 0;
      var r := SliceOrder(etfPos, 0.0, targetVolume, perOrderMax, None, false, false, false);
      if r.Some? {
        ClipApproachesTarget(etfPos, 0.0, targetVolume, perOrderMax, None, false, false, false);
        RepeatedClipsConverge(FillClip(etfPos, r.value), targetVolume, perOrderMax, rounds - 1);
      }
    }
  }
}
