/**
  The order-matching contract the strategies run against, for one instrument. The engine's
  own price model is not part of this module: the environment may fill any working order in any order
  and in any part, subject to the rules stated by `Allowed`.
*/
module Matching {
  import opened Shared

  datatype Side = Buy | Sell
  {
    function Opposite(): Side {
      if Buy? then Sell else Buy
    }

    /** The position change of filling `qty` on this side. */
    function Signed(qty: real): real {
      if Buy? then qty else -qty
    }
  }

  datatype Pricing = Market | Limit(price: real)

  datatype Order = Order(id: string, side: Side, pricing: Pricing, qty: real, reduceOnly: bool)

  datatype Command<+S> =
    | Place(symbol: S, order: Order)
    | Cancel(id: string)
    | CancelAll(symbol: S)

  /** A command with the bar or the timestamp it takes effect at. */
  datatype Stamped<+S> = Stamped(at: int, command: Command<S>)

  /** The position in one instrument and its working orders, oldest first. */
  datatype Account = Account(position: real, working: seq<Order>)

  const FLAT := Account(0.0, [])

  // ---------------------------------------------------------------- commands

  function Without(working: seq<Order>, id: string): seq<Order> {
    if working == [] then []
    else (if working[0].id == id then [] else [working[0]]) + Without(working[1..], id)
  }

  /** One command, as seen by the book of instrument `symbol`. */
  function Apply<S(==)>(a: Account, symbol: S, c: Command<S>): Account {
    match c
    case Place(s, o) => if s == symbol then a.(working := a.working + [o]) else a
    case Cancel(id) => a.(working := Without(a.working, id))
    case CancelAll(s) => if s == symbol then a.(working := []) else a
  }

  /** Commands take effect in emission order. */
  function ApplyAll<S(==)>(a: Account, symbol: S, cs: seq<Command<S>>): Account
    decreases |cs|
  {
    if cs == [] then a else ApplyAll(Apply(a, symbol, cs[0]), symbol, cs[1..])
  }

  lemma {:induction false} ApplyAllConcat<S>(a: Account, symbol: S, cs: seq<Command<S>>, ds: seq<Command<S>>)
    ensures ApplyAll(a, symbol, cs + ds) == ApplyAll(ApplyAll(a, symbol, cs), symbol, ds)
    decreases |cs|
  {
    if cs == [] {
      assert cs + ds == ds;
    } else {
      assert (cs + ds)[1..] == cs[1..] + ds;
      ApplyAllConcat(Apply(a, symbol, cs[0]), symbol, cs[1..], ds);
    }
  }

  /** Commands for other instruments leave the book as it is. */
  lemma {:induction false} OtherBooks<S>(a: Account, symbol: S, cs: seq<Command<S>>)
    requires forall c :: c in cs ==> !c.Cancel? && c.symbol != symbol
    ensures ApplyAll(a, symbol, cs) == a
    decreases |cs|
  {
    if cs == [] {
    } else {
      assert cs[0] in cs;
      OtherBooks(a, symbol, cs[1..]);
    }
  }

  // ---------------------------------------------------------------- fills

  /** What the environment may do to one working order. */
  datatype Event =
    | Fill(slot: nat, qty: real, price: real)
    | Drop(slot: nat)

  /** The quantity an order on this side could close. */
  function Closable(position: real, side: Side): real {
    if side.Sell? && position > 0.0 then position
    else if side.Buy? && position < 0.0 then -position
    else 0.0
  }

  /** The quantity the matcher tries to fill: reduce-only orders are clipped to the position. */
  function Requested(a: Account, o: Order): real {
    if o.reduceOnly then Min(o.qty, Closable(a.position, o.side)) else o.qty
  }

  /**
    A fill is positive, partial or complete, never beyond the requested quantity, and a limit
    order fills at its price or better. An order that may open exposure can be rejected at any
    time; a reduce-only order is dropped only when there is nothing to close.
   */
  predicate Allowed(a: Account, e: Event) {
    && e.slot < |a.working|
    && var o := a.working[e.slot];
       match e
       case Fill(_, qty, price) =>
         && 0.0 < qty <= Requested(a, o)
         && 0.0 < price
         && (o.pricing.Limit? ==> if o.side.Buy? then price <= o.pricing.price else o.pricing.price <= price)
       case Drop(_) => o.reduceOnly ==> Closable(a.position, o.side) == 0.0
  }

  /**
    The same in signed terms: fills are at the limit or on its better side, what a reduce-only order can close is the
    position on the opposite side, and it is dropped when there is none.
   */
  lemma AllowedExactly(a: Account, slot: nat, qty: real, price: real)
    requires slot < |a.working|
    ensures var o := a.working[slot];
            Allowed(a, Fill(slot, qty, price)) <==>
              && 0.0 < qty <= o.qty && 0.0 < price
              && (o.reduceOnly ==> qty <= o.side.Opposite().Signed(a.position))
              && (o.pricing.Limit? ==> o.side.Signed(price) <= o.side.Signed(o.pricing.price))
    ensures var o := a.working[slot];
            Allowed(a, Drop(slot)) <==> !o.reduceOnly || o.side.Opposite().Signed(a.position) <= 0.0
  {
  }

  function Removed(working: seq<Order>, slot: nat): seq<Order>
    requires slot < |working|
  {
    working[..slot] + working[slot + 1..]
  }

  /** A fill of everything requested ends the order; otherwise the residual keeps working. */
  function After(a: Account, e: Event): Account
    requires e.slot < |a.working|
  {
    var o := a.working[e.slot];
    match e
    case Fill(slot, qty, price) =>
      Account(a.position + o.side.Signed(qty),
              if qty == Requested(a, o) then Removed(a.working, slot)
              else a.working[slot := o.(qty := o.qty - qty)])
    case Drop(slot) => a.(working := Removed(a.working, slot))
  }

  /** One matching pass: a sequence of events, each allowed where it happens. */
  predicate AllAllowed(a: Account, es: seq<Event>)
    decreases |es|
  {
    es == [] || (Allowed(a, es[0]) && AllAllowed(After(a, es[0]), es[1..]))
  }

  function AfterAll(a: Account, es: seq<Event>): Account
    requires AllAllowed(a, es)
    decreases |es|
  {
    if es == [] then a else AfterAll(After(a, es[0]), es[1..])
  }

  lemma EmptyPass(a: Account)
    ensures AllAllowed(a, []) && AfterAll(a, []) == a
  {
  }

  lemma OneEvent(a: Account, e: Event)
    requires Allowed(a, e)
    ensures AllAllowed(a, [e]) && AfterAll(a, [e]) == After(a, e)
  {
    assert [e][1..] == [];
  }

  /** Passes with no command between them are one pass. */
  lemma {:induction false} PassConcat(a: Account, es: seq<Event>, fs: seq<Event>)
    requires AllAllowed(a, es) && AllAllowed(AfterAll(a, es), fs)
    ensures AllAllowed(a, es + fs) && AfterAll(a, es + fs) == AfterAll(AfterAll(a, es), fs)
    decreases |es|
  {
    if es == [] {
      assert es + fs == fs;
    } else {
      assert (es + fs)[1..] == es[1..] + fs;
      PassConcat(After(a, es[0]), es[1..], fs);
    }
  }

  /** A fill as the strategy sees it in the next callback. */
  datatype FillRow = FillRow(side: Side, qty: real, price: real)

  /** Every fill of the pass is reported, in order. */
  function Reported(a: Account, es: seq<Event>): seq<FillRow>
    requires AllAllowed(a, es)
    decreases |es|
  {
    if es == [] then []
    else
      (if es[0].Fill? then [FillRow(a.working[es[0].slot].side, es[0].qty, es[0].price)] else [])
      + Reported(After(a, es[0]), es[1..])
  }

  // ---------------------------------------------------------------- sums over the book

  /** Total working quantity on one side. */
  function Working(os: seq<Order>, side: Side): real {
    if os == [] then 0.0
    else (if os[0].side == side then os[0].qty else 0.0) + Working(os[1..], side)
  }

  lemma {:induction false} WorkingConcat(a: seq<Order>, b: seq<Order>, side: Side)
    ensures Working(a + b, side) == Working(a, side) + Working(b, side)
  {
    if a == [] {
      assert a + b == b;
    } else {
      assert (a + b)[1..] == a[1..] + b;
      WorkingConcat(a[1..], b, side);
    }
  }

  lemma WorkingSplit(os: seq<Order>, slot: nat, side: Side)
    requires slot < |os|
    ensures Working(os, side)
            == Working(Removed(os, slot), side) + (if os[slot].side == side then os[slot].qty else 0.0)
    ensures forall o :: Working(os[slot := o], side)
                        == Working(Removed(os, slot), side) + (if o.side == side then o.qty else 0.0)
  {
    var l, r := os[..slot], os[slot + 1..];
    WorkingConcat(l, r, side);
    forall o ensures Working(os[slot := o], side)
                     == Working(Removed(os, slot), side) + (if o.side == side then o.qty else 0.0) {
      assert os[slot := o] == l + ([o] + r);
      assert ([o] + r)[1..] == r;
      WorkingConcat(l, [o] + r, side);
    }
    assert os == os[slot := os[slot]];
  }

  lemma {:induction false} WorkingNonNegative(os: seq<Order>, side: Side)
    requires forall o :: o in os ==> o.qty > 0.0
    ensures Working(os, side) >= 0.0
  {
    if os == [] {
    } else {
      WorkingNonNegative(os[1..], side);
    }
  }

  // ---------------------------------------------------------------- bounds on any pass

  ghost predicate Positive(working: seq<Order>) {
    forall o :: o in working ==> o.qty > 0.0
  }

  /** The position on one side if everything working on that side filled as well. */
  function Exposure(a: Account, side: Side): real {
    side.Signed(a.position) + Working(a.working, side)
  }

  lemma EventExposure(a: Account, e: Event, side: Side)
    requires Positive(a.working) && Allowed(a, e)
    ensures Positive(After(a, e).working)
    ensures Exposure(After(a, e), side) <= Exposure(a, side)
  {
    assert a.working[e.slot] in a.working;
    WorkingSplit(a.working, e.slot, side);
    hide Working;
  }

  /** Whatever fills or is dropped, the exposure on a side never grows. */
  lemma {:induction false} PassExposure(a: Account, es: seq<Event>, side: Side)
    requires Positive(a.working) && AllAllowed(a, es)
    ensures Positive(AfterAll(a, es).working)
    ensures Exposure(AfterAll(a, es), side) <= Exposure(a, side)
    ensures side.Signed(AfterAll(a, es).position) <= Exposure(a, side)
    decreases |es|
  {
    WorkingNonNegative(a.working, side);
    if es == [] {
    } else {
      EventExposure(a, es[0], side);
      hide After;
      hide Allowed;
      hide Exposure;
      PassExposure(After(a, es[0]), es[1..], side);
    }
  }

  /** A book that holds one side only and never more than `lot`: whatever works on the other side just reduces. */
  ghost predicate OneSided(a: Account, side: Side, lot: real) {
    && Positive(a.working)
    && (forall o :: o in a.working && o.side != side ==> o.reduceOnly)
    && 0.0 <= side.Signed(a.position)
    && Exposure(a, side) <= lot
  }

  lemma EventKeepsOneSided(a: Account, e: Event, side: Side, lot: real)
    requires OneSided(a, side, lot) && Allowed(a, e)
    ensures OneSided(After(a, e), side, lot)
  {
    EventExposure(a, e, side);
    assert a.working[e.slot] in a.working;
    hide Exposure;
  }

  /** Any pass keeps a one-sided book one-sided and within its lot. */
  lemma {:induction false} PassKeepsOneSided(a: Account, es: seq<Event>, side: Side, lot: real)
    requires OneSided(a, side, lot) && AllAllowed(a, es)
    ensures OneSided(AfterAll(a, es), side, lot)
    ensures 0.0 <= side.Signed(AfterAll(a, es).position) <= lot
    decreases |es|
  {
    WorkingNonNegative(a.working, side);
    if es == [] {
    } else {
      EventKeepsOneSided(a, es[0], side, lot);
      hide After;
      hide Allowed;
      hide OneSided;
      PassKeepsOneSided(After(a, es[0]), es[1..], side, lot);
    }
  }

  /** A reduce-only order on the other side that could close the whole position, unless there is none. */
  ghost predicate Covered(a: Account, side: Side) {
    || a.position == 0.0
    || exists k :: 0 <= k < |a.working| && Covers(a, side, a.working[k])
  }

  predicate Covers(a: Account, side: Side, o: Order) {
    o.side == side.Opposite() && o.reduceOnly && side.Signed(a.position) <= o.qty
  }

  ghost predicate ReducingOnly(working: seq<Order>, side: Side) {
    forall o :: o in working ==> o.side == side.Opposite() && o.reduceOnly && o.qty > 0.0
  }

  lemma EventKeepsCovered(a: Account, e: Event, side: Side)
    requires Covered(a, side) && ReducingOnly(a.working, side) && 0.0 <= side.Signed(a.position) && Allowed(a, e)
    ensures Covered(After(a, e), side) && ReducingOnly(After(a, e).working, side)
    ensures 0.0 <= side.Signed(After(a, e).position) <= side.Signed(a.position)
  {
    assert a.working[e.slot] in a.working;
    var b := After(a, e);
    if a.position != 0.0 {
      var k :| 0 <= k < |a.working| && Covers(a, side, a.working[k]);
      if b.position != 0.0 {
        var j := if |b.working| < |a.working| && e.slot < k then k - 1 else k;
        assert Covers(b, side, b.working[j]);
      }
    }
  }

  /** While only reduce-only orders work, the position shrinks and stays covered: once none works, it is zero. */
  lemma {:induction false} PassKeepsCovered(a: Account, es: seq<Event>, side: Side)
    requires Covered(a, side) && ReducingOnly(a.working, side) && 0.0 <= side.Signed(a.position)
    requires AllAllowed(a, es)
    ensures Covered(AfterAll(a, es), side) && ReducingOnly(AfterAll(a, es).working, side)
    ensures 0.0 <= side.Signed(AfterAll(a, es).position) <= side.Signed(a.position)
    decreases |es|
  {
    if es == [] {
    } else {
      EventKeepsCovered(a, es[0], side);
      hide After;
      hide Allowed;
      hide Covered;
      hide ReducingOnly;
      PassKeepsCovered(After(a, es[0]), es[1..], side);
    }
  }

  /** A covering order that fills completely leaves the position flat. */
  lemma CoveringFillFlattens(a: Account, slot: nat, price: real, side: Side)
    requires slot < |a.working| && Covers(a, side, a.working[slot]) && 0.0 <= side.Signed(a.position)
    ensures After(a, Fill(slot, Requested(a, a.working[slot]), price)).position == 0.0
  {
  }

  // ---------------------------------------------------------------- full fills

  /** The pass in which every market order fills completely at the open, oldest first. */
  function FullPass(a: Account, open: real): seq<Event>
    decreases |a.working|
  {
    if a.working == [] then []
    else
      var quantity := Requested(a, a.working[0]);
      var e := if quantity > 0.0 then Fill(0, quantity, open) else Drop(0);
      [e] + FullPass(After(a, e), open)
  }

  ghost predicate MarketOnly(working: seq<Order>) {
    forall o :: o in working ==> o.pricing.Market? && o.qty > 0.0
  }

  /** A full pass is within the contract and leaves no market order working. */
  lemma {:induction false} FullPassAllowed(a: Account, open: real)
    requires MarketOnly(a.working) && open > 0.0
    ensures AllAllowed(a, FullPass(a, open))
    ensures AfterAll(a, FullPass(a, open)).working == []
    decreases |a.working|
  {
    if a.working == [] {
    } else {
      assert a.working[0] in a.working;
      var e := FullPass(a, open)[0];
      assert FullPass(a, open)[1..] == FullPass(After(a, e), open);
      FullPassAllowed(After(a, e), open);
    }
  }

  /** The account after a full pass at the open. */
  function Opened(a: Account, open: real): Account
    requires AllAllowed(a, FullPass(a, open))
  {
    AfterAll(a, FullPass(a, open))
  }

  /** A full pass over at most one market order. */
  lemma OpenedOne(position: real, o: Order, open: real)
    requires o.pricing.Market? && o.qty > 0.0 && open > 0.0
    ensures AllAllowed(Account(position, [o]), FullPass(Account(position, [o]), open))
    ensures Opened(Account(position, [o]), open)
            == Account(position + o.side.Signed(Requested(Account(position, [o]), o)), [])
    ensures AllAllowed(Account(position, []), FullPass(Account(position, []), open))
    ensures Opened(Account(position, []), open) == Account(position, [])
  {
    var a := Account(position, [o]);
    FullPassAllowed(a, open);
    var e := FullPass(a, open)[0];
    assert Removed(a.working, 0) == [];
    assert FullPass(a, open)[1..] == FullPass(After(a, e), open) == [];
    assert AfterAll(a, FullPass(a, open)) == AfterAll(After(a, e), []);
  }
}
