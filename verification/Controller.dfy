/**
  The position controller that both callbacks share: examples/intrabar_bracket_diagnostic.py aims at a frozen target
  path, examples/wfo_meta_execution.py at half of a side. Each bar it sends one market order for the distance to the
  target, looking at the position but not at what is still working.
*/
module Controller {
  import opened Decimal
  import opened Matching
  import opened Shared

  /** Orders this small are not sent. */
  const EPSILON: real := 0.000000000001

  function MarketOrder(id: string, delta: real): Order {
    Order(id, if delta > 0.0 then Buy else Sell, Market, Abs(delta), false)
  }

  /** At most one market order, for the distance to the target. */
  function Chase(symbol: string, id: string, delta: real): seq<Command<string>> {
    if Abs(delta) <= EPSILON then [] else [Place(symbol, MarketOrder(id, delta))]
  }

  /** The book after the controller's commands. */
  function Chased(a: Account, symbol: string, id: string, target: real): Account {
    ApplyAll(a, symbol, Chase(symbol, id, target - a.position))
  }

  lemma ChasedIs(a: Account, symbol: string, id: string, target: real)
    ensures Chased(a, symbol, id, target)
            == if Abs(target - a.position) <= EPSILON then a
               else a.(working := a.working + [MarketOrder(id, target - a.position)])
  {
    var cs: seq<Command<string>> := Chase(symbol, id, target - a.position);
    if cs != [] {
      assert cs[1..] == [];
      assert ApplyAll(a, symbol, cs) == ApplyAll(Apply(a, symbol, cs[0]), symbol, []);
    }
  }

  /**
    From a position with nothing working, the commands followed by full fills at the open leave nothing working and
    the position on the target, or where it was if that is within the threshold.
   */
  ghost predicate Lands(symbol: string, commands: seq<Command<string>>, position: real, target: real, open: real) {
    var a := ApplyAll(Account(position, []), symbol, commands);
    && MarketOnly(a.working)
    && AllAllowed(a, FullPass(a, open))
    && Opened(a, open) == Account(if Abs(target - position) <= EPSILON then position else target, [])
  }

  /** One chase from any position, fully filled at the next open, lands on the target or within the threshold. */
  lemma ChaseLands(symbol: string, id: string, target: real, position: real, open: real)
    requires open > 0.0
    ensures Lands(symbol, Chase(symbol, id, target - position), position, target, open)
  {
    ChasedIs(Account(position, []), symbol, id, target);
    var o := MarketOrder(id, target - position);
    if Abs(target - position) > EPSILON {
      OpenedOne(position, o, open);
    } else {
      OpenedOne(position, Order(id, Buy, Market, 1.0, false), open);
    }
  }

  // ---------------------------------------------------------------- the two callbacks

  /**
    What a controller may write to move from `held` to `target`: nothing within 1e-12, else one market order for the
    distance, a buy exactly when the target lies above.
   */
  ghost predicate Moves(symbol: string, id: string, commands: seq<Command<string>>, held: real, target: real) {
    if -0.000000000001 <= target - held <= 0.000000000001 then commands == []
    else
      && |commands| == 1 && commands[0].Place? && commands[0].symbol == symbol
      && var o := commands[0].order;
         && o.id == id && o.pricing.Market? && !o.reduceOnly
         && (o.side.Buy? <==> held < target)
         && (held < target ==> held + o.qty == target)
         && (target < held ==> held - o.qty == target)
  }

  class TargetCallback {
    const targets: map<int, real>
    const symbol: string

    constructor (targets: map<int, real>, symbol: string)
      ensures this.targets == targets && this.symbol == symbol
    {
      this.targets, this.symbol := targets, symbol;
    }

    method OnBarClose(timestamp: int, positions: map<string, real>) returns (commands: seq<Command<string>>)
      requires timestamp in targets
      ensures var held := if symbol in positions then positions[symbol] else 0.0;
              && commands == Chase(symbol, "target:" + Text(timestamp), targets[timestamp] - held)
              && Moves(symbol, "target:" + Text(timestamp), commands, held, targets[timestamp])
              && forall open :: open > 0.0 ==> Lands(symbol, commands, held, targets[timestamp], open)
    {
      var held := if symbol in positions then positions[symbol] else 0.0;
      var delta := targets[timestamp] - held;
      forall open | open > 0.0
        ensures Lands(symbol, Chase(symbol, "target:" + Text(timestamp), delta), held, targets[timestamp], open)
      {
        ChaseLands(symbol, "target:" + Text(timestamp), targets[timestamp], held, open);
      }
      hide Lands;
      if Abs(delta) <= 0.000000000001 {
        return [];
      }
      return [Place(symbol, Order("target:" + Text(timestamp), if delta > 0.0 then Buy else Sell,
                                  Market, Abs(delta), false))];
    }
  }

  /** Half of the bar's side; a bar without a side asks for a flat position. */
  function Desired(side: map<int, real>, timestamp: int): real {
    if timestamp in side then side[timestamp] * 0.5 else 0.0
  }

  class MeanReversionCallback {
    const side: map<int, real>
    const symbol: string

    constructor (side: map<int, real>, symbol: string)
      ensures this.side == side && this.symbol == symbol
    {
      this.side, this.symbol := side, symbol;
    }

    method OnBarClose(timestamp: int, positions: map<string, real>) returns (commands: seq<Command<string>>)
      ensures var held := if symbol in positions then positions[symbol] else 0.0;
              commands == Chase(symbol, "callback:" + Text(timestamp), Desired(side, timestamp) - held)
      ensures var held := if symbol in positions then positions[symbol] else 0.0;
              var half := if timestamp in side then side[timestamp] / 2.0 else 0.0;
              && Moves(symbol, "callback:" + Text(timestamp), commands, held, half)
              && forall open :: open > 0.0 ==> Lands(symbol, commands, held, half, open)
    {
      var desired := (if timestamp in side then side[timestamp] else 0.0) * 0.5;
      var held := if symbol in positions then positions[symbol] else 0.0;
      var delta := desired - held;
      forall open | open > 0.0
        ensures Lands(symbol, Chase(symbol, "callback:" + Text(timestamp), delta), held, desired, open)
      {
        ChaseLands(symbol, "callback:" + Text(timestamp), desired, held, open);
      }
      hide Lands;
      if Abs(delta) <= 0.000000000001 {
        return [];
      }
      return [Place(symbol, Order("callback:" + Text(timestamp), if delta > 0.0 then Buy else Sell,
                                  Market, Abs(delta), false))];
    }
  }

  // ---------------------------------------------------------------- closed loop with full fills

  ghost predicate Prices(opens: int -> real) {
    forall b :: opens(b) > 0.0
  }

  /**
    The account at bar `bar` of a run started at bar `from` with some position: full fills at each open of whatever
    the controller wrote at the close before.
   */
  function ClosedLoop(target: int -> real, symbol: string, opens: int -> real, from: int, position: real,
                      bar: int): Account
    requires from <= bar
    decreases bar - from
  {
    if bar == from then Account(position, [])
    else
      var before := ClosedLoop(target, symbol, opens, from, position, bar - 1);
      var placed := Chased(before, symbol, "target:" + Text(bar - 1), target(bar - 1));
      var pass := FullPass(placed, opens(bar));
      if AllAllowed(placed, pass) then AfterAll(placed, pass) else placed
  }

  /** One step of the loop from any position. */
  lemma ClosedLoopStep(target: int -> real, symbol: string, opens: int -> real, from: int, position: real, bar: int,
                       held: real)
    requires Prices(opens) && from < bar
    requires ClosedLoop(target, symbol, opens, from, position, bar - 1) == Account(held, [])
    ensures ClosedLoop(target, symbol, opens, from, position, bar)
            == Account(if Abs(target(bar - 1) - held) <= EPSILON then held else target(bar - 1), [])
  {
    hide Chase;
    hide FullPass;
    hide AllAllowed;
    hide AfterAll;
    hide ApplyAll;
    ChaseLands(symbol, "target:" + Text(bar - 1), target(bar - 1), held, opens(bar));
  }

  /** For any target, from any position: nothing stays working and the position is within the threshold of the path. */
  lemma {:induction false} StaysClose(target: int -> real, symbol: string, opens: int -> real, from: int,
                                      position: real, bar: int)
    requires Prices(opens) && from < bar
    ensures var a := ClosedLoop(target, symbol, opens, from, position, bar);
            a.working == [] && Abs(a.position - target(bar - 1)) <= EPSILON
    decreases bar - from
  {
    var before := ClosedLoop(target, symbol, opens, from, position, bar - 1);
    if bar > from + 1 {
      StaysClose(target, symbol, opens, from, position, bar - 1);
    }
    assert before == Account(before.position, []);
    hide ClosedLoop;
    ClosedLoopStep(target, symbol, opens, from, position, bar, before.position);
  }

  /** At the bars after `from` up to `bar` the target is unchanged or moves by more than the threshold. */
  ghost predicate Stepwise(target: int -> real, from: int, bar: int) {
    forall t :: from < t < bar ==> target(t) == target(t - 1) || Abs(target(t) - target(t - 1)) > EPSILON
  }

  ghost predicate OnPath(target: int -> real, symbol: string, opens: int -> real, from: int, position: real, bar: int)
    requires from < bar
  {
    ClosedLoop(target, symbol, opens, from, position, bar) == Account(target(bar - 1), [])
  }

  lemma {:induction false} RegainsPath(target: int -> real, symbol: string, opens: int -> real, from: int,
                                       position: real, bar: int)
    requires Prices(opens) && from < bar && Stepwise(target, from, bar)
    requires Abs(target(from) - position) > EPSILON || position == target(from)
    ensures OnPath(target, symbol, opens, from, position, bar)
    decreases bar - from
  {
    if bar > from + 1 {
      RegainsPath(target, symbol, opens, from, position, bar - 1);
    }
    var before := ClosedLoop(target, symbol, opens, from, position, bar - 1);
    assert before == Account(before.position, []);
    hide ClosedLoop;
    ClosedLoopStep(target, symbol, opens, from, position, bar, before.position);
  }

  lemma OnPathStarts(target: int -> real, symbol: string, opens: int -> real, from: int, position: real)
    requires Prices(opens) && OnPath(target, symbol, opens, from, position, from + 1)
    ensures Abs(target(from) - position) > EPSILON || position == target(from)
  {
    assert ClosedLoop(target, symbol, opens, from, position, from) == Account(position, []);
    hide ClosedLoop;
    ClosedLoopStep(target, symbol, opens, from, position, from + 1, position);
  }

  lemma OnPathMoves(target: int -> real, symbol: string, opens: int -> real, from: int, position: real, t: int)
    requires Prices(opens) && from < t
    requires OnPath(target, symbol, opens, from, position, t) && OnPath(target, symbol, opens, from, position, t + 1)
    ensures target(t) == target(t - 1) || Abs(target(t) - target(t - 1)) > EPSILON
  {
    hide ClosedLoop;
    ClosedLoopStep(target, symbol, opens, from, position, t + 1, target(t - 1));
  }

  /**
    From any perturbed position the loop is exactly on the path at every later bar if and only if its first order is
    not suppressed and no later move of the target is.
   */
  lemma RegainsExactly(target: int -> real, symbol: string, opens: int -> real, from: int, position: real, bar: int)
    requires Prices(opens) && from < bar
    ensures (forall b :: from < b <= bar ==> OnPath(target, symbol, opens, from, position, b))
            <==> && Stepwise(target, from, bar)
                 && (Abs(target(from) - position) > EPSILON || position == target(from))
  {
    hide OnPath;
    hide Abs;
    if Stepwise(target, from, bar) && (Abs(target(from) - position) > EPSILON || position == target(from)) {
      forall b | from < b <= bar ensures OnPath(target, symbol, opens, from, position, b) {
        assert Stepwise(target, from, b);
        RegainsPath(target, symbol, opens, from, position, b);
      }
    }
    if forall b :: from < b <= bar ==> OnPath(target, symbol, opens, from, position, b) {
      OnPathStarts(target, symbol, opens, from, position);
      forall t | from < t < bar
        ensures target(t) == target(t - 1) || Abs(target(t) - target(t - 1)) > EPSILON
      {
        OnPathMoves(target, symbol, opens, from, position, t);
      }
    }
  }

  /** Half of each bar's side, bar `t` having timestamp `clock(t)`. */
  function HalfSides(side: map<int, real>, clock: int -> int): int -> real {
    (t: int) => Desired(side, clock(t))
  }

  /** Sides of -1, 0 and 1 never ask for a move the threshold would suppress. */
  lemma HalfSidesAreStepwise(side: map<int, real>, clock: int -> int, from: int, bar: int)
    requires forall ts :: ts in side ==> side[ts] == -1.0 || side[ts] == 0.0 || side[ts] == 1.0
    ensures Stepwise(HalfSides(side, clock), from, bar)
  {
    var target := HalfSides(side, clock);
    forall t | from < t < bar
      ensures target(t) == target(t - 1) || Abs(target(t) - target(t - 1)) > EPSILON
    {
      HalfSide(side, clock(t));
      HalfSide(side, clock(t - 1));
      hide Desired;
    }
    hide HalfSides;
  }

  lemma HalfSide(side: map<int, real>, timestamp: int)
    requires forall ts :: ts in side ==> side[ts] == -1.0 || side[ts] == 0.0 || side[ts] == 1.0
    ensures var d := Desired(side, timestamp); d == -0.5 || d == 0.0 || d == 0.5
  {
  }

  /**
    The mean-reversion callback over a run: the position ends every bar within the threshold of half the side of the
    bar before, and exactly on it unless the first order was suppressed.
   */
  lemma MeanReversionHoldsHalfTheSide(side: map<int, real>, clock: int -> int, symbol: string, opens: int -> real,
                                      from: int, position: real, bar: int)
    requires Prices(opens) && from < bar
    requires forall ts :: ts in side ==> side[ts] == -1.0 || side[ts] == 0.0 || side[ts] == 1.0
    ensures var a := ClosedLoop(HalfSides(side, clock), symbol, opens, from, position, bar);
            var desired := Desired(side, clock(bar - 1));
            && a.working == []
            && Abs(a.position - desired) <= EPSILON
            && (Abs(Desired(side, clock(from)) - position) > EPSILON || position == Desired(side, clock(from)) ==>
                  a.position == desired)
  {
    hide ClosedLoop;
    var target := HalfSides(side, clock);
    assert target(from) == Desired(side, clock(from)) && target(bar - 1) == Desired(side, clock(bar - 1));
    hide HalfSides;
    hide Desired;
    HalfSidesAreStepwise(side, clock, from, bar);
    StaysClose(target, symbol, opens, from, position, bar);
    if Abs(target(from) - position) > EPSILON || position == target(from) {
      RegainsPath(target, symbol, opens, from, position, bar);
    }
  }

  /** Run from flat, the callback is long 0.5 after a bar of side 1, short 0.5 after one of side -1, else flat. */
  lemma MeanReversionFromFlat(side: map<int, real>, clock: int -> int, symbol: string, opens: int -> real,
                              from: int, bar: int)
    requires Prices(opens) && from < bar
    requires forall ts :: ts in side ==> side[ts] == -1.0 || side[ts] == 0.0 || side[ts] == 1.0
    ensures var a, ts := ClosedLoop(HalfSides(side, clock), symbol, opens, from, 0.0, bar), clock(bar - 1);
            && a.working == []
            && (ts in side && side[ts] == 1.0 ==> a.position == 0.5)
            && (ts in side && side[ts] == -1.0 ==> a.position == -0.5)
            && (ts in side && side[ts] == 0.0 ==> a.position == 0.0)
            && (ts !in side ==> a.position == 0.0)
  {
    hide ClosedLoop;
    hide HalfSides;
    HalfSide(side, clock(from));
    MeanReversionHoldsHalfTheSide(side, clock, symbol, opens, from, 0.0, bar);
  }

  // ---------------------------------------------------------------- partial fills

  function SideTowards(target: real, position: real): Side {
    if target > position then Buy else Sell
  }

  /** Market orders like the controller's own, none of them reduce-only. */
  ghost predicate Plain(working: seq<Order>) {
    forall o :: o in working ==> o.pricing.Market? && o.qty > 0.0 && !o.reduceOnly
  }

  lemma ChasedExposure(a: Account, symbol: string, id: string, target: real)
    requires Positive(a.working) && Abs(target - a.position) > EPSILON
    ensures var side, c := SideTowards(target, a.position), Chased(a, symbol, id, target);
            && Positive(c.working)
            && (Plain(a.working) ==> Plain(c.working))
            && Exposure(c, side) == side.Signed(target) + Working(a.working, side)
  {
    var side, o := SideTowards(target, a.position), MarketOrder(id, target - a.position);
    ChasedIs(a, symbol, id, target);
    WorkingConcat(a.working, [o], side);
    assert [o][1..] == [];
  }

  /** The pass that fills everything on one side from a slot on, and nothing else. */
  function FillSide(a: Account, side: Side, open: real, slot: nat): seq<Event>
    decreases |a.working| - slot
  {
    if slot >= |a.working| then []
    else if a.working[slot].side == side && Requested(a, a.working[slot]) == a.working[slot].qty then
      var e := Fill(slot, a.working[slot].qty, open);
      [e] + FillSide(After(a, e), side, open, slot)
    else FillSide(a, side, open, slot + 1)
  }

  lemma {:induction false} FillSideReaches(a: Account, side: Side, open: real, slot: nat)
    requires Plain(a.working) && slot <= |a.working| && open > 0.0
    ensures AllAllowed(a, FillSide(a, side, open, slot))
    ensures AfterAll(a, FillSide(a, side, open, slot)).position
            == a.position + side.Signed(Working(a.working[slot..], side))
    decreases |a.working| - slot
  {
    if slot < |a.working| {
      var o := a.working[slot];
      assert o in a.working;
      assert a.working[slot..][1..] == a.working[slot + 1..];
      if o.side == side {
        var e := Fill(slot, o.qty, open);
        var b := After(a, e);
        assert b.working[slot..] == a.working[slot + 1..];
        var es := FillSide(a, side, open, slot);
        assert es[0] == e && es[1..] == FillSide(b, side, open, slot);
        FillSideReaches(b, side, open, slot);
      } else {
        FillSideReaches(a, side, open, slot + 1);
      }
    }
  }

  /**
    How far one callback can carry the position past its target when earlier orders are still working: never further
    than what works on the side of the new order, and all the way there in some permitted pass.
   */
  lemma OvershootBound(a: Account, symbol: string, id: string, target: real, es: seq<Event>)
    requires Positive(a.working) && Abs(target - a.position) > EPSILON
    requires AllAllowed(Chased(a, symbol, id, target), es)
    ensures var side := SideTowards(target, a.position);
            side.Signed(AfterAll(Chased(a, symbol, id, target), es).position)
            <= side.Signed(target) + Working(a.working, side)
  {
    ChasedExposure(a, symbol, id, target);
    hide Chased;
    hide Exposure;
    PassExposure(Chased(a, symbol, id, target), es, SideTowards(target, a.position));
  }

  lemma OvershootReached(a: Account, symbol: string, id: string, target: real) returns (es: seq<Event>)
    requires Plain(a.working) && Abs(target - a.position) > EPSILON
    ensures AllAllowed(Chased(a, symbol, id, target), es)
    ensures var side := SideTowards(target, a.position);
            side.Signed(AfterAll(Chased(a, symbol, id, target), es).position)
            == side.Signed(target) + Working(a.working, side)
  {
    var side, c := SideTowards(target, a.position), Chased(a, symbol, id, target);
    ChasedExposure(a, symbol, id, target);
    hide Chased;
    es := FillSide(c, side, 1.0, 0);
    FillSideReaches(c, side, 1.0, 0);
    assert c.working[0..] == c.working;
    hide Working;
    hide FillSide;
    hide AfterAll;
  }

  /** No pass overshoots the target. */
  ghost predicate NeverPast(a: Account, symbol: string, id: string, target: real) {
    var side := SideTowards(target, a.position);
    forall es :: AllAllowed(Chased(a, symbol, id, target), es) ==>
                   side.Signed(AfterAll(Chased(a, symbol, id, target), es).position) <= side.Signed(target)
  }

  /** The callback cannot overshoot if and only if nothing is still working on the side of its new order. */
  lemma OvershootExactly(a: Account, symbol: string, id: string, target: real)
    requires Plain(a.working) && Abs(target - a.position) > EPSILON
    ensures NeverPast(a, symbol, id, target) <==> Working(a.working, SideTowards(target, a.position)) == 0.0
  {
    var side, c := SideTowards(target, a.position), Chased(a, symbol, id, target);
    WorkingNonNegative(a.working, side);
    hide Chased;
    hide Working;
    hide AllAllowed;
    hide AfterAll;
    hide SideTowards;
    if Working(a.working, side) == 0.0 {
      forall es | AllAllowed(c, es) ensures side.Signed(AfterAll(c, es).position) <= side.Signed(target) {
        OvershootBound(a, symbol, id, target, es);
      }
    } else {
      var es := OvershootReached(a, symbol, id, target);
    }
  }

  /** A permitted run past its target: 0.4 of 1 fills, the callback orders the missing 0.6 again, everything fills. */
  lemma PartialFillOvershoots(symbol: string) returns (first: Event, second: seq<Event>)
    ensures var a := Chased(FLAT, symbol, "target:0", 1.0);
            && Allowed(a, first)
            && After(a, first).position == 0.4
            && var b := Chased(After(a, first), symbol, "target:1", 1.0);
               AllAllowed(b, second) && AfterAll(b, second).position == 1.6
  {
    ChasedIs(FLAT, symbol, "target:0", 1.0);
    var a := Chased(FLAT, symbol, "target:0", 1.0);
    first := Fill(0, 0.4, 1.0);
    var b := After(a, first);
    assert b.working == [a.working[0].(qty := 0.6)];
    hide Chased;
    assert b.working[1..] == [];
    second := OvershootReached(b, symbol, "target:1", 1.0);
  }

  // ---------------------------------------------------------------- runs with arbitrary fills

  /** One callback followed by any pass. */
  ghost predicate LoopStep(target: int -> real, symbol: string, a: Account, k: int, es: seq<Event>, b: Account) {
    var c := Chased(a, symbol, "target:" + Text(k), target(k));
    AllAllowed(c, es) && b == AfterAll(c, es)
  }

  /** A run with arbitrary fills: `books[k]` is the account that callback `k` meets. */
  ghost predicate Loop(target: int -> real, symbol: string, passes: seq<seq<Event>>, books: seq<Account>) {
    && |books| == |passes| + 1
    && forall k :: 0 <= k < |passes| ==> LoopStep(target, symbol, books[k], k, passes[k], books[k + 1])
  }

  lemma {:induction false} PassKeepsPlain(a: Account, es: seq<Event>)
    requires Plain(a.working) && AllAllowed(a, es)
    ensures Plain(AfterAll(a, es).working)
    decreases |es|
  {
    if es == [] {
    } else {
      assert a.working[es[0].slot] in a.working;
      PassKeepsPlain(After(a, es[0]), es[1..]);
    }
  }

  lemma {:induction false} LoopIsPlain(target: int -> real, symbol: string, passes: seq<seq<Event>>,
                                       books: seq<Account>, k: nat)
    requires Loop(target, symbol, passes, books) && Plain(books[0].working) && k < |books|
    ensures Plain(books[k].working)
  {
    if k == 0 {
    } else {
      var j := k - 1;
      LoopIsPlain(target, symbol, passes, books, j);
      assert LoopStep(target, symbol, books[j], j, passes[j], books[j + 1]);
      ChasedIs(books[j], symbol, "target:" + Text(j), target(j));
      PassKeepsPlain(Chased(books[j], symbol, "target:" + Text(j), target(j)), passes[j]);
    }
  }

  /** The callback sends an order. */
  predicate Sends(a: Account, target: real) {
    Abs(target - a.position) > EPSILON
  }

  /**
    In any run, no callback can carry the position past its target if and only if each callback that sends an order
    meets nothing working on that order's side.
   */
  lemma LoopNeverPastExactly(target: int -> real, symbol: string, passes: seq<seq<Event>>, books: seq<Account>)
    requires Loop(target, symbol, passes, books) && Plain(books[0].working)
    ensures (forall k :: 0 <= k < |books| && Sends(books[k], target(k)) ==>
               NeverPast(books[k], symbol, "target:" + Text(k), target(k)))
            <==> (forall k :: 0 <= k < |books| && Sends(books[k], target(k)) ==>
                    Working(books[k].working, SideTowards(target(k), books[k].position)) == 0.0)
  {
    forall k | 0 <= k < |books| && Sends(books[k], target(k))
      ensures NeverPast(books[k], symbol, "target:" + Text(k), target(k))
              <==> Working(books[k].working, SideTowards(target(k), books[k].position)) == 0.0
    {
      LoopIsPlain(target, symbol, passes, books, k);
      OvershootExactly(books[k], symbol, "target:" + Text(k), target(k));
    }
  }

  predicate Between(x: real, a: real, b: real) {
    a <= x <= b || b <= x <= a
  }

  /** With nothing else working, a pass takes the position from where it was towards the target and never past it. */
  lemma IdleStepApproaches(a: Account, symbol: string, id: string, target: real, es: seq<Event>)
    requires a.working == [] && AllAllowed(Chased(a, symbol, id, target), es)
    ensures Between(AfterAll(Chased(a, symbol, id, target), es).position, a.position, target)
  {
    ChasedIs(a, symbol, id, target);
    var c := Chased(a, symbol, id, target);
    hide Chased;
    if Sends(a, target) {
      var o := MarketOrder(id, target - a.position);
      assert c == Account(a.position, [o]) && [o][1..] == [];
      assert Working([o], Buy) == if o.side.Buy? then o.qty else 0.0;
      assert Working([o], Sell) == if o.side.Sell? then o.qty else 0.0;
      hide Working;
      hide AfterAll;
      hide AllAllowed;
      PassExposure(c, es, Buy);
      PassExposure(c, es, Sell);
    } else {
      EmptyBook(c, es);
    }
  }

  lemma EmptyBook(a: Account, es: seq<Event>)
    requires a.working == [] && AllAllowed(a, es)
    ensures AfterAll(a, es) == a
  {
  }

  /**
    With a constant target and arbitrary fills, as long as every callback meets an empty book, the position only ever
    approaches the target from where the run started.
   */
  lemma {:induction false} IdleLoopApproaches(target: int -> real, aim: real, symbol: string,
                                              passes: seq<seq<Event>>, books: seq<Account>, k: nat, es: seq<Event>)
    requires Loop(target, symbol, passes, books) && k < |books|
    requires forall j :: 0 <= j <= k ==> books[j].working == [] && target(j) == aim
    requires AllAllowed(Chased(books[k], symbol, "target:" + Text(k), aim), es)
    ensures Between(books[k].position, books[0].position, aim)
    ensures Between(AfterAll(Chased(books[k], symbol, "target:" + Text(k), aim), es).position,
                    books[k].position, aim)
    decreases k
  {
    hide Chased;
    hide AllAllowed;
    hide AfterAll;
    IdleStepApproaches(books[k], symbol, "target:" + Text(k), aim, es);
    if k == 0 {
    } else {
      var j := k - 1;
      assert LoopStep(target, symbol, books[j], j, passes[j], books[j + 1]);
      IdleLoopApproaches(target, aim, symbol, passes, books, j, passes[j]);
    }
  }

  /** The sum of the first `k` targets. */
  function Total(target: int -> real, k: nat): real {
    if k == 0 then 0.0 else Total(target, k - 1) + target(k - 1)
  }

  ghost predicate BuysOnly(working: seq<Order>) {
    forall o :: o in working ==> o.side.Buy? && o.qty > 0.0
  }

  lemma {:induction false} PassKeepsBuys(a: Account, es: seq<Event>)
    requires BuysOnly(a.working) && AllAllowed(a, es)
    ensures BuysOnly(AfterAll(a, es).working)
    decreases |es|
  {
    if es == [] {
    } else {
      assert a.working[es[0].slot] in a.working;
      PassKeepsBuys(After(a, es[0]), es[1..]);
    }
  }

  lemma {:induction false} NoSells(working: seq<Order>)
    requires BuysOnly(working)
    ensures Working(working, Sell) == 0.0
  {
    if working == [] {
    } else {
      NoSells(working[1..]);
    }
  }

  /** What one callback and one pass make of a book of buys below its target. */
  lemma BuyStep(a: Account, symbol: string, id: string, target: real, es: seq<Event>)
    requires BuysOnly(a.working) && 0.0 <= a.position <= target && AllAllowed(Chased(a, symbol, id, target), es)
    ensures var b := AfterAll(Chased(a, symbol, id, target), es);
            BuysOnly(b.working) && a.position <= b.position && Exposure(b, Buy) <= Exposure(a, Buy) + target
  {
    ChasedIs(a, symbol, id, target);
    var c, o := Chased(a, symbol, id, target), MarketOrder(id, target - a.position);
    hide Chased;
    WorkingConcat(a.working, [o], Buy);
    assert [o][1..] == [];
    assert BuysOnly(c.working);
    PassExposure(c, es, Buy);
    PassExposure(c, es, Sell);
    NoSells(c.working);
    PassKeepsBuys(c, es);
    hide Working;
    hide AfterAll;
    hide AllAllowed;
  }

  /** From flat and below its targets, each callback adds at most its own target to what may end up bought. */
  lemma {:induction false} ExposureGrows(target: int -> real, symbol: string, passes: seq<seq<Event>>,
                                         books: seq<Account>, k: nat)
    requires Loop(target, symbol, passes, books) && books[0] == FLAT && k < |books|
    requires forall j :: 0 <= j < k ==> books[j].position <= target(j)
    ensures BuysOnly(books[k].working) && 0.0 <= books[k].position
    ensures Exposure(books[k], Buy) <= Total(target, k)
  {
    if k == 0 {
    } else {
      var j := k - 1;
      ExposureGrows(target, symbol, passes, books, j);
      assert LoopStep(target, symbol, books[j], j, passes[j], books[j + 1]);
      BuyStep(books[j], symbol, "target:" + Text(j), target(j), passes[j]);
      hide Exposure;
    }
  }

  lemma OrderedAgain(a: Account, symbol: string, id: string, target: real)
    requires a.position == 0.0 && target > EPSILON
    ensures var c := Chased(a, symbol, id, target);
            c.position == 0.0 && Exposure(c, Buy) == Exposure(a, Buy) + target
  {
    var o := MarketOrder(id, target - a.position);
    ChasedIs(a, symbol, id, target);
    WorkingConcat(a.working, [o], Buy);
    assert [o][1..] == [];
  }

  /** That growth is reached: while nothing fills, every callback orders its whole target again. */
  lemma {:induction false} ExposureReached(target: int -> real, symbol: string, k: nat)
    returns (passes: seq<seq<Event>>, books: seq<Account>)
    requires forall j :: target(j) > EPSILON
    ensures Loop(target, symbol, passes, books) && books[0] == FLAT && |books| == k + 1
    ensures forall j :: 0 <= j < |books| ==> books[j].position == 0.0
    ensures Exposure(books[k], Buy) == Total(target, k)
  {
    if k == 0 {
      passes, books := [], [FLAT];
    } else {
      var j := k - 1;
      passes, books := ExposureReached(target, symbol, j);
      var a, id := books[j], "target:" + Text(j);
      var c := Chased(a, symbol, id, target(j));
      OrderedAgain(a, symbol, id, target(j));
      EmptyPass(c);
      assert LoopStep(target, symbol, a, j, [], c);
      hide LoopStep;
      hide Chased;
      hide Exposure;
      passes, books := passes + [[]], books + [c];
    }
  }
}
