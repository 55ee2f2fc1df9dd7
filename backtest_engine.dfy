/**
  Model of the backtest strategy's decision rule.  Once per bar the engine
  calls `next`, which reads whether the strategy currently holds a position and
  the bar's signal score, and then issues a buy, a close, or nothing.

  Whether a position is held is an input read at the start of the bar: the
  engine fills orders on its own schedule and updates the position itself.
  The size of a buy is computed from broker state in floating point and is not
  modelled; an order here records only its kind.
*/
module Backtest {
  import opened Wrappers

  /** The strategy's parameters `entry_score` and `exit_score`. */
  datatype Params = Params(entryScore: real, exitScore: real)

  /** The parameters the strategy declares when the caller gives none. */
  const DefaultParams: Params := Params(8.0, 2.0)

  /** The commands `next` can issue: `self.buy(...)` or `self.close()`. */
  datatype Order = Buy | Close

  /** The command issued on one bar, given the position flag and the signal score. */
  function Decide(p: Params, holding: bool, signal: real): (o: Option<Order>)
  {
    if !holding && signal >= p.entryScore then Some(Buy)
    else if holding && signal <= p.exitScore then Some(Close)
    else None
  }

  /** The commands a decision adds to the broker's order stream: at most one. */
  function Issued(o: Option<Order>): (orders: seq<Order>)
    ensures |orders| <= 1
    ensures orders == [] <==> o.None?
  {
    match o
    case None => []
    case Some(order) => [order]
  }

  /** A buy is issued exactly when flat with the signal at or above the entry score. */
  lemma BuyExactlyWhenFlatAtEntry(p: Params, holding: bool, signal: real)
    ensures Decide(p, holding, signal) == Some(Buy) <==> !holding && signal >= p.entryScore
  {
  }

  /** A close is issued exactly when holding with the signal at or below the exit score. */
  lemma CloseExactlyWhenHoldingAtExit(p: Params, holding: bool, signal: real)
    ensures Decide(p, holding, signal) == Some(Close) <==> holding && signal <= p.exitScore
  {
  }

  /** Nothing is issued when flat below the entry score or holding above the exit score. */
  lemma NothingOtherwise(p: Params, holding: bool, signal: real)
    ensures Decide(p, holding, signal).None? <==>
      (!holding && signal < p.entryScore) || (holding && signal > p.exitScore)
  {
  }

  /** Never a buy while holding, never a close while flat. */
  lemma OrdersMatchPosition(p: Params, holding: bool, signal: real)
    ensures holding ==> Decide(p, holding, signal) != Some(Buy)
    ensures !holding ==> Decide(p, holding, signal) != Some(Close)
  {
  }

  /** With the default thresholds a signal strictly between 2.0 and 8.0 never trades. */
  lemma DefaultDeadBand(holding: bool, signal: real)
    requires 2.0 < signal < 8.0
    ensures Decide(DefaultParams, holding, signal).None?
  {
  }

  /** The position after an order filled in full; no order leaves it as it was. */
  function Filled(holding: bool, o: Option<Order>): bool
  {
    match o
    case None => holding
    case Some(Buy) => true
    case Some(Close) => false
  }

  /**
    The orders over a run of bars when every order fills before the next bar,
    so that the position read on each bar is the one the previous orders left.
  */
  function Run(p: Params, holding: bool, signals: seq<real>): (orders: seq<Order>)
    decreases |signals|
  {
    if |signals| == 0 then []
    else
      var o := Decide(p, holding, signals[0]);
      Issued(o) + Run(p, Filled(holding, o), signals[1..])
  }

  /** Orders alternate between buy and close, starting with a buy when flat. */
  ghost predicate Alternating(orders: seq<Order>, holding: bool)
  {
    forall k :: 0 <= k < |orders| ==> (orders[k] == Buy <==> (k % 2 == 0) == !holding)
  }

  /**
    When orders fill before the next bar, consecutive orders alternate: a buy
    is always followed by a close and a close by a buy.
  */
  lemma {:induction false} RunAlternates(p: Params, holding: bool, signals: seq<real>)
    ensures Alternating(Run(p, holding, signals), holding)
    ensures |Run(p, holding, signals)| <= |signals|
    decreases |signals|
  {
    if |signals| > 0 {
      var o := Decide(p, holding, signals[0]);
      var rest := Run(p, Filled(holding, o), signals[1..]);
      RunAlternates(p, Filled(holding, o), signals[1..]);
      var orders := Issued(o) + rest;
      if o.Some? {
        forall k | 0 <= k < |orders|
          ensures orders[k] == Buy <==> (k % 2 == 0) == !holding
        {
          if k > 0 {
            assert orders[k] == rest[k - 1];
          }
        }
      } else {
        assert orders == rest;
      }
    }
  }

  /** The strategy object: its parameters and the orders it has issued so far. */
  class Strategy {
    /** The thresholds; the engine fixes them when it creates the strategy. */
    const params: Params
    /** The commands `next` has issued, oldest first. */
    var orders: seq<Order>

    /** A new strategy; without arguments it takes `entry_score` 8.0 and `exit_score` 2.0. */
    constructor (params: Params := DefaultParams)
      ensures this.params == params && orders == []
    {
      this.params := params;
      orders := [];
    }

    /** `next`: one bar, given the current position flag and the bar's signal score. */
    method Next(holding: bool, signal: real)
      modifies this
      ensures orders == old(orders) + Issued(Decide(params, holding, signal))
      ensures |orders| <= |old(orders)| + 1
    {
      if !holding && signal >= params.entryScore {
        orders := orders + [Buy];
      } else if holding && signal <= params.exitScore {
        orders := orders + [Close];
      }
    }
  }

  /** A strategy created without arguments uses the declared default thresholds. */
  method DefaultThresholds() returns (entry: real, exit: real)
    ensures entry == 8.0 && exit == 2.0
  {
    var s := new Strategy();
    entry, exit := s.params.entryScore, s.params.exitScore;
  }
}
