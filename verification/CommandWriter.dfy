/** The primitive command buffer handed to reactive callbacks. */
module CommandWriter {
  import opened Matching

  class Writer {
    var commands: seq<Command<nat>>

    constructor ()
      ensures commands == []
    {
      commands := [];
    }

    method Market(symbol: nat, side: Side, qty: real, reduceOnly: bool := false)
      modifies this
      ensures commands == old(commands) + [Place(symbol, Order("", side, Pricing.Market, qty, reduceOnly))]
    {
      commands := commands + [Place(symbol, Order("", side, Pricing.Market, qty, reduceOnly))];
    }

    method Limit(symbol: nat, side: Side, qty: real, price: real, reduceOnly: bool := false)
      modifies this
      ensures commands == old(commands) + [Place(symbol, Order("", side, Pricing.Limit(price), qty, reduceOnly))]
    {
      commands := commands + [Place(symbol, Order("", side, Pricing.Limit(price), qty, reduceOnly))];
    }

    method CancelAll(symbol: nat)
      modifies this
      ensures commands == old(commands) + [Command.CancelAll(symbol)]
    {
      commands := commands + [Command.CancelAll(symbol)];
    }
  }
}
