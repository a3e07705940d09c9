/**
  The fill-feedback grid (examples/wfo_meta_reactive_grid.py): every buy fill is answered by a
  reduce-only sell limit 0.3% above it, and every `2 * window` bars the book is reset.
*/
module Grid {
  import opened Matching
  import opened CommandWriter

  const LOT: real := 0.5

  /** The numeric context of one `on_bar_close` callback. */
  datatype Context = Context(barIndex: int, fills: seq<FillRow>, position: real, close: real)

  predicate Due(startBar: int, window: int, bar: int)
    requires window != 0
  {
    (bar - startBar) % (2 * window) == 0
  }

  function ExitOrder(fill: FillRow): Order {
    Order("", Sell, Limit(fill.price * 1.003), fill.qty, true)
  }

  /** One exit per buy fill, in fill order. */
  function Exits(fills: seq<FillRow>): seq<Order> {
    if fills == [] then []
    else Exits(fills[..|fills| - 1])
         + (if fills[|fills| - 1].side.Buy? then [ExitOrder(fills[|fills| - 1])] else [])
  }

  function Placed(os: seq<Order>): seq<Command<nat>> {
    seq(|os|, i requires 0 <= i < |os| => Place(0, os[i]))
  }

  lemma ExitsGrow(fills: seq<FillRow>, row: nat)
    requires row < |fills|
    ensures Placed(Exits(fills[..row + 1]))
         == Placed(Exits(fills[..row])) + if fills[row].side.Buy? then [Place(0, ExitOrder(fills[row]))] else []
  {
    assert fills[..row + 1][..row] == fills[..row];
  }

  function Rebalance(c: Context): seq<Command<nat>> {
    [CancelAll(0),
     Place(0, if c.position > 0.0 then Order("", Sell, Market, c.position, true)
              else Order("", Buy, Limit(c.close * 0.998), LOT, false))]
  }

  function Commands(startBar: int, window: int, c: Context): seq<Command<nat>>
    requires window != 0
  {
    Placed(Exits(c.fills)) + if Due(startBar, window, c.barIndex) then Rebalance(c) else []
  }

  /** How many of the first fills are buys. */
  function Buys(fills: seq<FillRow>, upto: nat): nat
    requires upto <= |fills|
  {
    if upto == 0 then 0 else Buys(fills, upto - 1) + if fills[upto - 1].side.Buy? then 1 else 0
  }

  lemma {:induction false} BuysOfPrefix(fills: seq<FillRow>, n: nat, upto: nat)
    requires upto <= n <= |fills|
    ensures Buys(fills[..n], upto) == Buys(fills, upto)
  {
    if upto == 0 {
    } else {
      BuysOfPrefix(fills, n, upto - 1);
    }
  }

  /** The k-th exit sells the k-th bought quantity, reduce-only, 0.3% above the price it was bought at. */
  lemma {:induction false} ExitsMean(fills: seq<FillRow>)
    ensures |Exits(fills)| == Buys(fills, |fills|)
    ensures forall i :: 0 <= i < |fills| && fills[i].side.Buy? ==>
              && Buys(fills, i) < |Exits(fills)|
              && var o := Exits(fills)[Buys(fills, i)];
                 && o.side == Sell && o.reduceOnly && o.qty == fills[i].qty
                 && o.pricing.Limit? && 1000.0 * o.pricing.price == 1003.0 * fills[i].price
    decreases |fills|
  {
    if fills == [] {
    } else {
      var init := fills[..|fills| - 1];
      ExitsMean(init);
      forall i | 0 <= i <= |init| ensures Buys(init, i) == Buys(fills, i) {
        BuysOfPrefix(fills, |init|, i);
      }
      assert forall i :: 0 <= i < |init| ==> init[i] == fills[i];
    }
  }

  /**
    What one callback writes: an exit per buy fill, and every `2 * window` bars from the start a cancel of everything
    followed by a market exit of the whole inventory, or when flat by a bid for 0.5 at 0.2% under the close.
   */
  lemma CommandsMean(startBar: int, window: int, c: Context)
    requires window != 0
    ensures var cs, exits := Commands(startBar, window, c), Exits(c.fills);
            && (forall i :: 0 <= i < |exits| ==> i < |cs| && cs[i] == Place(0, exits[i]))
            && ((exists k :: c.barIndex == startBar + k * (2 * window)) <==> |cs| == |exits| + 2)
            && ((forall k :: c.barIndex != startBar + k * (2 * window)) <==> |cs| == |exits|)
            && (|cs| == |exits| + 2 ==>
                  && cs[|exits|] == CancelAll(0)
                  && cs[|exits| + 1].Place? && cs[|exits| + 1].symbol == 0
                  && var o := cs[|exits| + 1].order;
                     if c.position > 0.0
                     then o.side == Sell && o.pricing.Market? && o.qty == c.position && o.reduceOnly
                     else o.side == Buy && o.pricing.Limit? && 1000.0 * o.pricing.price == 998.0 * c.close
                          && o.qty == 0.5 && !o.reduceOnly)
  {
    DueMeans(startBar, window, c.barIndex);
    hide Exits;
    hide Due;
  }

  lemma DueMeans(startBar: int, window: int, bar: int)
    requires window != 0
    ensures Due(startBar, window, bar) <==> exists k :: bar == startBar + k * (2 * window)
  {
    var d, e := bar - startBar, 2 * window;
    assert d == (d / e) * e + d % e;
    if Due(startBar, window, bar) {
      assert bar == startBar + (d / e) * (2 * window);
    }
    if k :| bar == startBar + k * (2 * window) {
      assert (k - d / e) * e == d % e;
      NoSmallMultiple(k - d / e, e);
    }
  }

  lemma NoSmallMultiple(m: int, e: int)
    requires e != 0
    ensures m * e < 0 || m * e == 0 || m * e >= (if e > 0 then e else -e)
  {
    if m * e > 0 {
      var size := if e > 0 then e else -e;
      var times := if e > 0 then m else -m;
      assert m * e == times * size;
      assert times >= 1;
      assert times * size >= size;
    }
  }

  class FillFeedbackGrid {
    const window: int
    var startBar: int
    var fillFeedbackCount: nat

    constructor (startBar: int, window: int)
      ensures this.startBar == startBar && this.window == window && fillFeedbackCount == 0
    {
      this.startBar, this.window, fillFeedbackCount := startBar, window, 0;
    }

    method Reset(startBar: int)
      modifies this
      ensures this.startBar == startBar && fillFeedbackCount == 0
    {
      this.startBar, fillFeedbackCount := startBar, 0;
    }

    method OnBarClose(context: Context, out: Writer)
      requires window != 0
      modifies this, out
      ensures startBar == old(startBar)
      ensures fillFeedbackCount == old(fillFeedbackCount) + |context.fills|
      ensures out.commands == old(out.commands) + Commands(startBar, window, context)
    {
      var elapsed := context.barIndex - startBar;
      for row := 0 to |context.fills|
        invariant startBar == old(startBar)
        invariant fillFeedbackCount == old(fillFeedbackCount) + row
        invariant out.commands == old(out.commands) + Placed(Exits(context.fills[..row]))
      {
        fillFeedbackCount := fillFeedbackCount + 1;
        var fill := context.fills[row];
        ExitsGrow(context.fills, row);
        if fill.side.Buy? {
          out.Limit(0, Sell, fill.qty, fill.price * 1.003, true);
        }
      }
      assert context.fills[..|context.fills|] == context.fills;
      if elapsed % (2 * window) == 0 {
        out.CancelAll(0);
        var qty := context.position;
        if qty > 0.0 {
          out.Market(0, Sell, qty, true);
        } else {
          out.Limit(0, Buy, 0.5, context.close * 0.998);
        }
      }
    }
  }

  // ---------------------------------------------------------------- runs

  /**
    Books over a whole run. `unwound` is the purchase cost of units whose exit was cancelled,
    so that they left through a market order instead.
   */
  datatype Books = Books(
    bought: real, boughtCost: real,
    limitSold: real, limitProceeds: real, limitCost: real,
    marketSold: real, unwound: real)

  datatype State = State(account: Account, books: Books)

  const START := State(FLAT, Books(0.0, 0.0, 0.0, 0.0, 0.0, 0.0, 0.0))

  function Notional(qty: real, price: real): real {
    qty * price
  }

  /** What a unit sold by this exit was bought for. */
  function UnitCost(limit: real): real {
    limit / 1.003
  }

  /** Purchase cost of all units that working limit exits will close. */
  function OpenCost(os: seq<Order>): real {
    if os == [] then 0.0
    else (if os[0].side.Sell? && os[0].pricing.Limit? then Notional(os[0].qty, UnitCost(os[0].pricing.price)) else 0.0)
         + OpenCost(os[1..])
  }

  function Record(b: Books, o: Order, qty: real, price: real): Books {
    match (o.side, o.pricing)
    case (Buy, _) => b.(bought := b.bought + qty, boughtCost := b.boughtCost + Notional(qty, price))
    case (Sell, Limit(limit)) =>
      b.(limitSold := b.limitSold + qty, limitProceeds := b.limitProceeds + Notional(qty, price),
         limitCost := b.limitCost + Notional(qty, UnitCost(limit)))
    case (Sell, Market) => b.(marketSold := b.marketSold + qty)
  }

  /** A buy costs quantity times price; a limit exit earns it, against a cost 1.003 times smaller than at its limit. */
  lemma RecordMeans(b: Books, o: Order, qty: real, price: real)
    ensures var c := Record(b, o, qty, price);
            && c.unwound == b.unwound
            && c.bought - b.bought == (if o.side.Buy? then qty else 0.0)
            && c.boughtCost - b.boughtCost == (if o.side.Buy? then qty * price else 0.0)
            && c.limitSold - b.limitSold == (if o.side.Sell? && o.pricing.Limit? then qty else 0.0)
            && c.marketSold - b.marketSold == (if o.side.Sell? && o.pricing.Market? then qty else 0.0)
            && c.limitProceeds - b.limitProceeds == (if o.side.Sell? && o.pricing.Limit? then qty * price else 0.0)
            && 1.003 * (c.limitCost - b.limitCost)
               == if o.side.Sell? && o.pricing.Limit? then qty * o.pricing.price else 0.0
  {
    if o.side.Sell? && o.pricing.Limit? {
      var unit := UnitCost(o.pricing.price);
      assert o.pricing.price == 1.003 * unit;
      assert qty * (1.003 * unit) == 1.003 * (qty * unit);
    }
  }

  function RecordAll(a: Account, b: Books, es: seq<Event>): Books
    requires AllAllowed(a, es)
    decreases |es|
  {
    if es == [] then b
    else RecordAll(After(a, es[0]),
                   if es[0].Fill? then Record(b, a.working[es[0].slot], es[0].qty, es[0].price) else b,
                   es[1..])
  }

  /** What the environment decides in one bar: the fills before the close, and the close. */
  datatype Bar = Bar(index: int, close: real, events: seq<Event>)

  function Seen(a: Account, bar: Bar): Context
    requires AllAllowed(a, bar.events)
  {
    Context(bar.index, Reported(a, bar.events), AfterAll(a, bar.events).position, bar.close)
  }

  /** Matching, then the callback, then its commands. */
  function Step(s: State, startBar: int, window: int, bar: Bar): State
    requires window != 0 && AllAllowed(s.account, bar.events)
  {
    var context := Seen(s.account, bar);
    var matched := AfterAll(s.account, bar.events);
    var books := RecordAll(s.account, s.books, bar.events);
    State(ApplyAll(matched, 0, Commands(startBar, window, context)),
          if Due(startBar, window, bar.index)
          then books.(unwound := books.unwound + OpenCost(matched.working + Exits(context.fills)))
          else books)
  }

  predicate Valid(s: State, startBar: int, window: int, bars: seq<Bar>)
    requires window != 0
    decreases |bars|
  {
    bars == [] || (AllAllowed(s.account, bars[0].events)
                   && Valid(Step(s, startBar, window, bars[0]), startBar, window, bars[1..]))
  }

  function Run(s: State, startBar: int, window: int, bars: seq<Bar>): State
    requires window != 0 && Valid(s, startBar, window, bars)
    decreases |bars|
  {
    if bars == [] then s else Run(Step(s, startBar, window, bars[0]), startBar, window, bars[1..])
  }

  // ---------------------------------------------------------------- the invariant

  predicate WellFormed(o: Order) {
    && o.qty > 0.0
    && (o.side.Sell? <==> o.reduceOnly)
  }

  /** Buy fills not yet answered by the callback. */
  datatype Pending = Pending(qty: real, cost: real)

  ghost predicate Invariant(s: State, pending: Pending) {
    var w := s.account.working;
    && (forall o :: o in w ==> WellFormed(o))
    && pending.qty >= 0.0
    && Working(w, Sell) + pending.qty == s.account.position
    && s.account.position + Working(w, Buy) <= LOT
    && s.books.bought == s.books.limitSold + s.books.marketSold + s.account.position
    && s.books.boughtCost == s.books.limitCost + OpenCost(w) + s.books.unwound + pending.cost
    && s.books.limitProceeds >= 1.003 * s.books.limitCost
  }

  const SETTLED := Pending(0.0, 0.0)

  function Tally(fills: seq<FillRow>): Pending {
    if fills == [] then SETTLED
    else
      var t := Tally(fills[1..]);
      if fills[0].side.Buy? then Pending(fills[0].qty + t.qty, Notional(fills[0].qty, fills[0].price) + t.cost) else t
  }

  function Plus(p: Pending, q: Pending): Pending {
    Pending(p.qty + q.qty, p.cost + q.cost)
  }

  // ---------------------------------------------------------------- preservation

  lemma {:induction false} OpenCostConcat(a: seq<Order>, b: seq<Order>)
    ensures OpenCost(a + b) == OpenCost(a) + OpenCost(b)
  {
    hide Notional;
    if a == [] {
      assert a + b == b;
    } else {
      assert (a + b)[1..] == a[1..] + b;
      OpenCostConcat(a[1..], b);
    }
  }

  lemma OpenCostOne(o: Order)
    ensures OpenCost([o])
            == if o.side.Sell? && o.pricing.Limit? then Notional(o.qty, UnitCost(o.pricing.price)) else 0.0
  {
    hide Notional;
    assert [o][1..] == [];
  }

  lemma OpenCostSplit(os: seq<Order>, slot: nat, o: Order)
    requires slot < |os|
    ensures OpenCost(os) == OpenCost(Removed(os, slot)) + OpenCost([os[slot]])
    ensures OpenCost(os[slot := o]) == OpenCost(Removed(os, slot)) + OpenCost([o])
  {
    hide Notional;
    var l, r := os[..slot], os[slot + 1..];
    OpenCostConcat(l, r);
    OpenCostConcat(l, [os[slot]] + r);
    OpenCostConcat([os[slot]], r);
    OpenCostConcat(l, [o] + r);
    OpenCostConcat([o], r);
    assert os == l + ([os[slot]] + r);
    assert os[slot := o] == l + ([o] + r);
  }

  /** While the invariant holds, the reduce-only clip of a working exit does not bind. */
  lemma ExitsAreCovered(s: State, pending: Pending, slot: nat)
    requires Invariant(s, pending) && slot < |s.account.working|
    requires s.account.working[slot].side.Sell?
    ensures Requested(s.account, s.account.working[slot]) == s.account.working[slot].qty
    ensures !Allowed(s.account, Drop(slot))
  {
    hide Notional;
    var w := s.account.working;
    WorkingSplit(w, slot, Sell);
    assert forall o :: o in Removed(w, slot) ==> o in w;
    WorkingNonNegative(Removed(w, slot), Sell);
    assert w[slot] in w;
  }

  /** Removing or shrinking one order of a well-formed book. */
  lemma BookAfter(w: seq<Order>, slot: nat, o: Order)
    requires slot < |w| && WellFormed(o) && forall q :: q in w ==> WellFormed(q)
    ensures forall q :: q in Removed(w, slot) ==> WellFormed(q)
    ensures forall q :: q in w[slot := o] ==> WellFormed(q)
  {
  }

  /** How one event moves the two working sums: the filled quantity leaves its own side. */
  lemma EventWorking(s: State, pending: Pending, e: Event)
    requires Invariant(s, pending) && Allowed(s.account, e)
    ensures var w, o, w' := s.account.working, s.account.working[e.slot], After(s.account, e).working;
            && (forall q :: q in w' ==> WellFormed(q))
            && WellFormed(o)
            && (e.Fill? ==> forall side: Side ::
                  Working(w', side) == Working(w, side) - (if o.side == side then e.qty else 0.0))
            && (e.Drop? ==> o.side.Buy? && Working(w', Sell) == Working(w, Sell)
                            && Working(w', Buy) <= Working(w, Buy))
  {
    var w := s.account.working;
    var o := w[e.slot];
    assert o in w;
    if o.side.Sell? {
      ExitsAreCovered(s, pending, e.slot);
    }
    BookAfter(w, e.slot, o);
    if e.Fill? && e.qty != o.qty {
      BookAfter(w, e.slot, o.(qty := o.qty - e.qty));
    }
    forall side: Side
      ensures e.Fill? ==>
                Working(After(s.account, e).working, side) == Working(w, side) - (if o.side == side then e.qty else 0.0)
      ensures e.Drop? ==> Working(After(s.account, e).working, side)
                          == Working(w, side) - (if o.side == side then o.qty else 0.0)
    {
      WorkingSplit(w, e.slot, side);
    }
  }

  /** How one event moves the cost covered by working exits. */
  lemma EventCost(s: State, pending: Pending, e: Event)
    requires Invariant(s, pending) && Allowed(s.account, e)
    ensures var w, o, w' := s.account.working, s.account.working[e.slot], After(s.account, e).working;
            OpenCost(w') == OpenCost(w) -
              if e.Fill? && o.side.Sell? && o.pricing.Limit? then Notional(e.qty, UnitCost(o.pricing.price)) else 0.0
  {
    var w := s.account.working;
    var o := w[e.slot];
    assert o in w;
    if o.side.Sell? {
      ExitsAreCovered(s, pending, e.slot);
    }
    OpenCostSplit(w, e.slot, o);
    OpenCostOne(o);
    if e.Fill? {
      var residual := o.(qty := o.qty - e.qty);
      OpenCostSplit(w, e.slot, residual);
      OpenCostOne(residual);
      if o.pricing.Limit? {
        CostSplits(o.qty, e.qty, UnitCost(o.pricing.price));
      }
    }
    hide Notional;
    hide UnitCost;
  }

  lemma EventKeeps(s: State, pending: Pending, e: Event)
    requires Invariant(s, pending) && Allowed(s.account, e)
    ensures var o := s.account.working[e.slot];
            var books := if e.Fill? then Record(s.books, o, e.qty, e.price) else s.books;
            var more := if e.Fill? && o.side.Buy? then Pending(e.qty, Notional(e.qty, e.price)) else SETTLED;
            Invariant(State(After(s.account, e), books), Plus(pending, more))
  {
    var o := s.account.working[e.slot];
    EventWorking(s, pending, e);
    EventCost(s, pending, e);
    if e.Fill? && o.side.Sell? && o.pricing.Limit? {
      ExitProfit(e.qty, e.price, o.pricing.price);
    }
    hide Notional;
    hide UnitCost;
    hide OpenCost;
    hide Working;
  }

  lemma ExitProfit(qty: real, price: real, limit: real)
    requires qty > 0.0 && price >= limit
    ensures Notional(qty, price) >= 1.003 * Notional(qty, UnitCost(limit))
  {
    assert 1.003 * UnitCost(limit) == limit;
    assert qty * (price - limit) >= 0.0;
  }

  lemma CostSplits(qty: real, part: real, unit: real)
    ensures Notional(qty, unit) == Notional(part, unit) + Notional(qty - part, unit)
  {
  }

  lemma {:induction false} PassKeeps(s: State, pending: Pending, es: seq<Event>)
    requires Invariant(s, pending) && AllAllowed(s.account, es)
    ensures Invariant(State(AfterAll(s.account, es), RecordAll(s.account, s.books, es)),
                      Plus(pending, Tally(Reported(s.account, es))))
    decreases |es|
  {
    hide Notional;
    if es == [] {
    } else {
      var e := es[0];
      var o := s.account.working[e.slot];
      EventKeeps(s, pending, e);
      var next := State(After(s.account, e), if e.Fill? then Record(s.books, o, e.qty, e.price) else s.books);
      var more := if e.Fill? && o.side.Buy? then Pending(e.qty, Notional(e.qty, e.price)) else SETTLED;
      PassKeeps(next, Plus(pending, more), es[1..]);
      var rest := Reported(After(s.account, e), es[1..]);
      if e.Fill? {
        assert Reported(s.account, es)[1..] == rest;
      } else {
        assert Reported(s.account, es) == rest;
      }
    }
  }

  // ---------------------------------------------------------------- the callback

  lemma {:induction false} TallyConcat(a: seq<FillRow>, b: seq<FillRow>)
    ensures Tally(a + b) == Plus(Tally(a), Tally(b))
  {
    hide Notional;
    if a == [] {
      assert a + b == b;
    } else {
      assert (a + b)[1..] == a[1..] + b;
      TallyConcat(a[1..], b);
    }
  }

  /** The exits written for a list of fills sell exactly what was bought, at its cost. */
  lemma {:induction false} ExitsMatchFills(fills: seq<FillRow>)
    requires forall f :: f in fills ==> f.qty > 0.0
    ensures forall o :: o in Exits(fills) ==> WellFormed(o) && o.side.Sell?
    ensures Working(Exits(fills), Sell) == Tally(fills).qty && Working(Exits(fills), Buy) == 0.0
    ensures OpenCost(Exits(fills)) == Tally(fills).cost
  {
    hide Notional;
    if fills == [] {
    } else {
      var init, last := fills[..|fills| - 1], fills[|fills| - 1];
      assert fills == init + [last] && last in fills;
      ExitsMatchFills(init);
      TallyConcat(init, [last]);
      var more := if last.side.Buy? then [ExitOrder(last)] else [];
      ExitMatchesFill(last, more);
      hide Tally;
      hide Working;
      hide OpenCost;
      hide WellFormed;
      WorkingConcat(Exits(init), more, Sell);
      WorkingConcat(Exits(init), more, Buy);
      OpenCostConcat(Exits(init), more);
    }
  }

  lemma ExitMatchesFill(fill: FillRow, more: seq<Order>)
    requires fill.qty > 0.0 && more == if fill.side.Buy? then [ExitOrder(fill)] else []
    ensures forall o :: o in more ==> WellFormed(o) && o.side.Sell?
    ensures Working(more, Sell) == Tally([fill]).qty && Working(more, Buy) == 0.0
    ensures OpenCost(more) == Tally([fill]).cost
  {
    hide Notional;
    assert [fill][1..] == [] && Tally([]) == SETTLED;
    if fill.side.Buy? {
      assert more[1..] == [];
      OpenCostOne(ExitOrder(fill));
      assert UnitCost(fill.price * 1.003) == fill.price;
    }
  }

  lemma {:induction false} ReportedPositive(a: Account, es: seq<Event>)
    requires AllAllowed(a, es)
    ensures forall f :: f in Reported(a, es) ==> f.qty > 0.0
    decreases |es|
  {
    if es == [] {
    } else {
      ReportedPositive(After(a, es[0]), es[1..]);
    }
  }

  lemma {:induction false} ApplyPlaced(a: Account, os: seq<Order>)
    ensures ApplyAll(a, 0, Placed(os)) == a.(working := a.working + os)
    decreases |os|
  {
    if os != [] {
      assert Placed(os)[1..] == Placed(os[1..]);
      ApplyPlaced(Apply(a, 0, Place(0, os[0])), os[1..]);
      assert a.working + [os[0]] + os[1..] == a.working + os;
    } else {
      assert a.working + os == a.working;
    }
  }

  lemma ApplyRebalance(a: Account, c: Context)
    ensures var order := Rebalance(c)[1].order;
            ApplyAll(a, 0, Rebalance(c)) == Account(a.position, [order])
  {
    var cs: seq<Command<nat>> := Rebalance(c);
    assert |cs| == 2;
    assert Apply(a, 0, cs[0]) == Account(a.position, []);
    assert ApplyAll(a, 0, cs) == ApplyAll(Account(a.position, []), 0, cs[1..]);
    assert ApplyAll(Account(a.position, []), 0, cs[1..])
        == ApplyAll(Account(a.position, [] + [cs[1].order]), 0, cs[1..][1..]);
  }

  /** The callback's exits restore the balance between inventory and working exits. */
  lemma ExitsSettle(s: State, fills: seq<FillRow>)
    requires Invariant(s, Tally(fills)) && forall f :: f in fills ==> f.qty > 0.0
    ensures Invariant(State(s.account.(working := s.account.working + Exits(fills)), s.books), SETTLED)
  {
    hide Notional;
    hide OpenCost;
    hide Working;
    hide Tally;
    hide Exits;
    var w, exits := s.account.working, Exits(fills);
    ExitsMatchFills(fills);
    WorkingConcat(w, exits, Sell);
    WorkingConcat(w, exits, Buy);
    OpenCostConcat(w, exits);
  }

  /** Replacing the whole book by one order for the whole inventory, or for the lot when flat. */
  lemma RebalanceSettles(s: State, c: Context)
    requires Invariant(s, SETTLED) && c.position == s.account.position
    ensures var order := Rebalance(c)[1].order;
            Invariant(State(Account(s.account.position, [order]),
                            s.books.(unwound := s.books.unwound + OpenCost(s.account.working))), SETTLED)
  {
    hide Notional;
    var order := Rebalance(c)[1].order;
    OpenCostOne(order);
    assert [order][1..] == [];
    WorkingNonNegative(s.account.working, Sell);
    WorkingNonNegative(s.account.working, Buy);
    assert WellFormed(order);
    assert Working([order], Sell) == s.account.position;
    assert s.account.position + Working([order], Buy) <= LOT;
    assert OpenCost([order]) == 0.0;
  }

  lemma StepKeeps(s: State, startBar: int, window: int, bar: Bar)
    requires window != 0 && Invariant(s, SETTLED) && AllAllowed(s.account, bar.events)
    ensures Invariant(Step(s, startBar, window, bar), SETTLED)
  {
    var context := Seen(s.account, bar);
    var matched := State(AfterAll(s.account, bar.events), RecordAll(s.account, s.books, bar.events));
    var exits := Exits(context.fills);
    assert Invariant(matched, Tally(context.fills)) by {
      hide *;
      PassKeeps(s, SETTLED, bar.events);
      NoneIsNeutral(Tally(Reported(s.account, bar.events)));
      ContextFills(s.account, bar);
    }
    assert Invariant(State(matched.account.(working := matched.account.working + exits), matched.books), SETTLED) by {
      ReportedPositive(s.account, bar.events);
      hide Invariant;
      ExitsSettle(matched, context.fills);
    }
    ApplyPlaced(matched.account, exits);
    var answered := State(matched.account.(working := matched.account.working + exits), matched.books);
    hide Invariant;
    if Due(startBar, window, bar.index) {
      ApplyAllConcat(matched.account, 0, Placed(exits), Rebalance(context));
      ApplyRebalance(answered.account, context);
      RebalanceSettles(answered, context);
    } else {
      assert Commands(startBar, window, context) == Placed(exits);
    }
  }

  lemma NoneIsNeutral(p: Pending)
    ensures Plus(SETTLED, p) == p
  {
  }

  lemma ContextFills(a: Account, bar: Bar)
    requires AllAllowed(a, bar.events)
    ensures Seen(a, bar).fills == Reported(a, bar.events)
  {
  }

  // ---------------------------------------------------------------- main results

  lemma {:induction false} RunKeeps(s: State, startBar: int, window: int, bars: seq<Bar>)
    requires window != 0 && Valid(s, startBar, window, bars) && Invariant(s, SETTLED)
    ensures Invariant(Run(s, startBar, window, bars), SETTLED)
    decreases |bars|
  {
    hide Invariant;
    hide Step;
    if bars == [] {
    } else {
      StepKeeps(s, startBar, window, bars[0]);
      RunKeeps(Step(s, startBar, window, bars[0]), startBar, window, bars[1..]);
    }
  }

  lemma StartInvariant()
    ensures Invariant(START, SETTLED)
  {
  }

  /** What the invariant says about exposure, in the middle of a matching pass too. */
  lemma InvariantBounds(s: State, pending: Pending)
    requires Invariant(s, pending)
    ensures var a := s.account;
            && 0.0 <= a.position
            && a.position + Working(a.working, Buy) <= LOT
            && Working(a.working, Sell) <= a.position
            && forall slot :: 0 <= slot < |a.working| && a.working[slot].side.Sell? ==>
                 && Requested(a, a.working[slot]) == a.working[slot].qty
                 && !Allowed(a, Drop(slot))
  {
    var a := s.account;
    WorkingNonNegative(a.working, Sell);
    forall slot | 0 <= slot < |a.working| && a.working[slot].side.Sell?
      ensures Requested(a, a.working[slot]) == a.working[slot].qty && !Allowed(a, Drop(slot))
    {
      ExitsAreCovered(s, pending, slot);
    }
  }

  /** What the invariant says about money once every fill has been answered. */
  lemma InvariantAccounts(s: State)
    requires Invariant(s, SETTLED)
    ensures var a, b := s.account, s.books;
            && Working(a.working, Sell) == a.position
            && b.limitProceeds - b.limitCost >= 0.003 * b.limitCost
            && b.boughtCost == b.limitCost + OpenCost(a.working) + b.unwound
            && b.bought == b.limitSold + b.marketSold + a.position
  {
  }

  /**
    After every callback of every run, the working sell quantity is exactly the inventory.
   */
  lemma InventoryCovered(startBar: int, window: int, bars: seq<Bar>)
    requires window != 0 && Valid(START, startBar, window, bars)
    ensures var a := Run(START, startBar, window, bars).account;
            Working(a.working, Sell) == a.position
  {
    hide *;
    StartInvariant();
    RunKeeps(START, startBar, window, bars);
    InvariantAccounts(Run(START, startBar, window, bars));
  }

  /**
    At every step of every run, in the middle of a matching pass too, the position is never short,
    what could still be bought never exceeds the lot, no exit is ever clipped, and
    the environment is never entitled to drop one.
   */
  lemma ExposureBounded(startBar: int, window: int, bars: seq<Bar>, es: seq<Event>)
    requires window != 0 && Valid(START, startBar, window, bars)
    requires AllAllowed(Run(START, startBar, window, bars).account, es)
    ensures var a := AfterAll(Run(START, startBar, window, bars).account, es);
            && 0.0 <= a.position
            && a.position + Working(a.working, Buy) <= LOT
            && Working(a.working, Sell) <= a.position
            && forall slot :: 0 <= slot < |a.working| && a.working[slot].side.Sell? ==>
                 && Requested(a, a.working[slot]) == a.working[slot].qty
                 && !Allowed(a, Drop(slot))
  {
    hide *;
    StartInvariant();
    RunKeeps(START, startBar, window, bars);
    var s := Run(START, startBar, window, bars);
    PassKeeps(s, SETTLED, es);
    InvariantBounds(State(AfterAll(s.account, es), RecordAll(s.account, s.books, es)),
                    Plus(SETTLED, Tally(Reported(s.account, es))));
  }

  /**
    Over any run, limit exits realise at least 0.3% of what their units cost, and no cost is lost:
    every unit bought is closed by a limit exit, still covered by one, or was unwound at market.
   */
  lemma ExitsAreProfitable(startBar: int, window: int, bars: seq<Bar>)
    requires window != 0 && Valid(START, startBar, window, bars)
    ensures var s := Run(START, startBar, window, bars);
            var b := s.books;
            && b.limitProceeds - b.limitCost >= 0.003 * b.limitCost
            && b.boughtCost == b.limitCost + OpenCost(s.account.working) + b.unwound
            && b.bought == b.limitSold + b.marketSold + s.account.position
  {
    hide *;
    StartInvariant();
    RunKeeps(START, startBar, window, bars);
    InvariantAccounts(Run(START, startBar, window, bars));
  }
}
