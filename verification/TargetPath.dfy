/**
  The sizing and timing diagnostic (examples/intrabar_bracket_diagnostic.py): a frozen target
  path, the closed-loop callback that chases it, the open-loop command tape that encodes it, and the
  intents that the bracket engine turns into a position.
*/
module TargetPath {
  import opened Controller
  import opened Decimal
  import opened Matching
  import opened Shared

  const NOTIONAL: real := 2000.0

  // ---------------------------------------------------------------- the target path

  datatype Frame = Frame(sides: seq<int>, closes: seq<real>)

  /** A side per bar and a positive price per bar. */
  ghost predicate Priced(f: Frame) {
    && |f.sides| == |f.closes|
    && (forall t :: 0 <= t < |f.sides| ==> f.sides[t] in {-1, 0, 1})
    && (forall t :: 0 <= t < |f.closes| ==> 0.0 < f.closes[t])
  }

  predicate Changed(f: Frame, t: nat)
    requires t < |f.sides|
  {
    f.sides[t] != (if t == 0 then 0 else f.sides[t - 1])
  }

  /** Units are frozen at each change of side and carried forward; before any change they are 0. */
  function Target(f: Frame, t: nat): real
    requires |f.sides| == |f.closes| && t < |f.sides|
    requires forall i :: 0 <= i < |f.closes| ==> f.closes[i] > 0.0
  {
    if Changed(f, t) then f.sides[t] as real * NOTIONAL / f.closes[t]
    else if t == 0 then 0.0
    else Target(f, t - 1)
  }

  function Previous(f: Frame, t: nat): real
    requires |f.sides| == |f.closes| && t < |f.sides|
    requires forall i :: 0 <= i < |f.closes| ==> f.closes[i] > 0.0
  {
    if t == 0 then 0.0 else Target(f, t - 1)
  }

  /** The price at which a unit position of the notional is as small as the threshold. */
  const LIMIT_PRICE: real := 2_000_000_000_000_000.0

  /** The bar at which the side held at `t` was entered. */
  function EntryBar(f: Frame, t: nat): (entered: nat)
    requires t < |f.sides| && f.sides[t] != 0
    ensures entered <= t && f.sides[entered] == f.sides[t] && Changed(f, entered)
  {
    if Changed(f, t) then t else EntryBar(f, t - 1)
  }

  /**
    A condition on prices for the change of side at `t`: an entry is priced below the limit, an exit
    leaves a side that was, and a reversal needs the two prices to be so jointly.
   */
  predicate Sized(f: Frame, t: nat)
    requires |f.sides| == |f.closes| && t < |f.sides|
  {
    var before := if t == 0 then 0 else f.sides[t - 1];
    if before == 0 then f.closes[t] < LIMIT_PRICE
    else
      var entered := f.closes[EntryBar(f, t - 1)];
      if f.sides[t] == 0 then entered < LIMIT_PRICE
      else Product(entered, f.closes[t]) < Product(LIMIT_PRICE, entered + f.closes[t])
  }

  function Product(x: real, y: real): real {
    x * y
  }

  function Units(close: real): real
    requires close > 0.0
  {
    NOTIONAL / close
  }

  lemma UnitsPositive(close: real)
    requires close > 0.0
    ensures Units(close) > 0.0
    ensures Units(close) > EPSILON <==> close < LIMIT_PRICE
  {
    var q := NOTIONAL / close;
    assert q * close == 2000.0;
    MultiplyBoth(q, 0.000000000001, close);
    MultiplyBoth(q, 0.0, close);
  }

  lemma UnitsAdd(a: real, b: real)
    requires a > 0.0 && b > 0.0
    ensures Units(a) + Units(b) > EPSILON <==> Product(a, b) < Product(LIMIT_PRICE, a + b)
  {
    var q, r, ab := NOTIONAL / a, NOTIONAL / b, a * b;
    assert q * a == NOTIONAL && r * b == NOTIONAL;
    assert (q + r) * ab == NOTIONAL * b + NOTIONAL * a by {
      assert q * ab == (q * a) * b;
      assert r * ab == (r * b) * a;
    }
    assert ab > 0.0;
    MultiplyBoth(q + r, EPSILON, ab);
  }

  lemma MultiplyBoth(x: real, y: real, c: real)
    requires c > 0.0
    ensures x > y <==> x * c > y * c
  {
  }

  /** The target is the side times the units frozen at its entry; its sign is the side at every bar. */
  lemma {:induction false} TargetHasTheSide(f: Frame, t: nat)
    requires Priced(f) && t < |f.sides|
    ensures f.sides[t] == 0 ==> Target(f, t) == 0.0
    ensures f.sides[t] != 0 ==>
              Target(f, t) == Signed(f.sides[t], Units(f.closes[EntryBar(f, t)]))
    ensures f.sides[t] == 1 <==> Target(f, t) > 0.0
    ensures f.sides[t] == -1 <==> Target(f, t) < 0.0
  {
    assert f.sides[t] in {-1, 0, 1};
    if Changed(f, t) {
      SignedUnits(f.sides[t], f.closes[t]);
      UnitsPositive(f.closes[t]);
    } else if t > 0 {
      TargetHasTheSide(f, t - 1);
    }
    hide Units;
  }

  /** While a side is held the target is worth 2000 at the price of the bar that entered it, on that side. */
  lemma TargetMeans(f: Frame, t: nat) returns (entered: nat)
    requires Priced(f) && t < |f.sides|
    ensures f.sides[t] == 0 ==> Target(f, t) == 0.0
    ensures f.sides[t] != 0 ==>
              && entered <= t && (entered == 0 || f.sides[entered - 1] != f.sides[t])
              && (forall k :: entered <= k <= t ==> f.sides[k] == f.sides[t])
              && Target(f, t) * f.closes[entered] == f.sides[t] as real * 2000.0
  {
    TargetHasTheSide(f, t);
    KnownSide(f, t);
    entered := 0;
    if f.sides[t] != 0 {
      entered := EntryBar(f, t);
      HeldSince(f, t);
      var close := f.closes[entered];
      assert Units(close) * close == 2000.0;
    }
  }

  lemma {:induction false} HeldSince(f: Frame, t: nat)
    requires t < |f.sides| && f.sides[t] != 0
    ensures var entered := EntryBar(f, t);
            && (entered == 0 || f.sides[entered - 1] != f.sides[t])
            && forall k :: entered <= k <= t ==> f.sides[k] == f.sides[t]
  {
    if Changed(f, t) {
    } else {
      HeldSince(f, t - 1);
    }
  }

  lemma SignedUnits(side: int, close: real)
    requires side in {-1, 0, 1} && close > 0.0
    ensures side as real * NOTIONAL / close == Signed(side, Units(close))
  {
    if side == -1 {
      assert (-NOTIONAL / close) * close == -NOTIONAL;
    } else if side == 0 {
      assert 0.0 / close * close == 0.0;
    }
  }

  /** A change of side moves the target by more than the threshold exactly when it is sized. */
  lemma TransitionExactly(f: Frame, t: nat)
    requires Priced(f) && t < |f.sides| && Changed(f, t)
    ensures Abs(Target(f, t) - Previous(f, t)) > EPSILON <==> Sized(f, t)
  {
    hide Units;
    hide Product;
    hide Target;
    hide Priced;
    hide Abs;
    KnownSide(f, t);
    TargetHasTheSide(f, t);
    UnitsPositive(f.closes[t]);
    if t == 0 || f.sides[t - 1] == 0 {
      if t > 0 {
        TargetHasTheSide(f, t - 1);
      }
      Distance(0, f.sides[t], 1.0, Units(f.closes[t]));
    } else {
      KnownSide(f, t - 1);
      TargetHasTheSide(f, t - 1);
      KnownSide(f, EntryBar(f, t - 1));
      var entered := f.closes[EntryBar(f, t - 1)];
      UnitsPositive(entered);
      UnitsAdd(entered, f.closes[t]);
      Distance(f.sides[t - 1], f.sides[t], Units(entered), Units(f.closes[t]));
    }
  }

  /** A position of `units` on a side. */
  function Signed(side: int, units: real): real {
    if side == 0 then 0.0 else if side == 1 then units else -units
  }

  lemma Distance(before: int, side: int, u: real, v: real)
    requires -1 <= before <= 1 && -1 <= side <= 1 && before != side && u > 0.0 && v > 0.0
    ensures Abs(Signed(side, v) - Signed(before, u)) == if before == 0 then v else if side == 0 then u else u + v
  {
  }

  lemma KnownSide(f: Frame, t: nat)
    requires Priced(f) && t < |f.sides|
    ensures f.sides[t] == -1 || f.sides[t] == 0 || f.sides[t] == 1
    ensures |f.closes| == |f.sides| && f.closes[t] > 0.0
  {
    assert f.sides[t] in {-1, 0, 1};
  }

  /** Every change of side that can still be executed is sized. */
  ghost predicate Valid(f: Frame) {
    && Priced(f)
    && (forall t :: 0 <= t < |f.sides| - 1 && Changed(f, t) ==> Sized(f, t))
  }

  /** Prices below the limit are enough. */
  lemma BelowLimitIsValid(f: Frame)
    requires Priced(f) && forall t :: 0 <= t < |f.closes| ==> f.closes[t] < LIMIT_PRICE
    ensures Valid(f)
  {
    forall t | 0 <= t < |f.sides| && Changed(f, t) ensures Sized(f, t) {
      if t > 0 && f.sides[t - 1] != 0 {
        BelowLimitJointly(f.closes[EntryBar(f, t - 1)], f.closes[t]);
      }
    }
  }

  lemma BelowLimitJointly(a: real, b: real)
    requires 0.0 < a < LIMIT_PRICE && 0.0 < b < LIMIT_PRICE
    ensures Product(a, b) < Product(LIMIT_PRICE, a + b)
  {
    JointlyBelow(a, b, LIMIT_PRICE);
  }

  lemma JointlyBelow(a: real, b: real, limit: real)
    requires 0.0 < a < limit && 0.0 < b
    ensures Product(a, b) < Product(limit, a + b)
  {
    assert a * b < limit * b;
    assert limit * (a + b) == limit * a + limit * b;
    assert limit * a > 0.0;
  }

  /** The threshold loses no transition exactly for valid frames. */
  lemma NoTransitionLostExactly(f: Frame)
    requires Priced(f)
    ensures Valid(f) <==>
            forall t :: 0 <= t < |f.sides| - 1 && Changed(f, t) ==> Abs(Target(f, t) - Previous(f, t)) > EPSILON
  {
    hide Target;
    hide Sized;
    hide EntryBar;
    hide Previous;
    hide Abs;
    hide Changed;
    forall t: nat | t < |f.sides| && Changed(f, t)
      ensures Abs(Target(f, t) - Previous(f, t)) > EPSILON <==> Sized(f, t)
    {
      TransitionExactly(f, t);
    }
  }

  /** On a valid frame the target moves by more than the threshold exactly when the side changes. */
  lemma TransitionsClearTheThreshold(f: Frame, t: nat)
    requires Valid(f) && t < |f.sides|
    ensures t + 1 < |f.sides| && Changed(f, t) ==> Abs(Target(f, t) - Previous(f, t)) > EPSILON
    ensures !Changed(f, t) ==> Target(f, t) == Previous(f, t)
  {
    if t + 1 < |f.sides| && Changed(f, t) {
      TransitionExactly(f, t);
    }
    hide Sized;
  }

  // ---------------------------------------------------------------- intents

  datatype Intents = Intents(entrySide: seq<int>, entrySize: seq<real>, technicalExit: seq<bool>)

  function IntentsOf(f: Frame, weight: real): Intents {
    Intents(seq(|f.sides|, t requires 0 <= t < |f.sides| => if Changed(f, t) then f.sides[t] else 0),
            seq(|f.sides|, _ => weight),
            seq(|f.sides|, t requires 0 <= t < |f.sides| => Changed(f, t) && f.sides[t] == 0))
  }

  /** An entry on each change to a side, a technical exit on each change to none, and the given size on every bar. */
  lemma IntentsMean(f: Frame, weight: real, t: nat)
    requires t < |f.sides|
    ensures var i, before := IntentsOf(f, weight), if t == 0 then 0 else f.sides[t - 1];
            && |i.entrySide| == |i.entrySize| == |i.technicalExit| == |f.sides|
            && i.entrySide[t] == (if f.sides[t] != before then f.sides[t] else 0)
            && (i.technicalExit[t] <==> f.sides[t] != before && f.sides[t] == 0)
            && i.entrySize[t] == weight
  {
  }

  /**
    What the bracket engine makes of one bar's intents at the next open: a technical exit or an opposite entry
    closes, an entry opens from flat, and an entry on the side a technical exit has just closed is suppressed.
   */
  function AtOpen(held: int, entry: int, size: real, exit: bool): int {
    var left := if held != 0 && (exit || (entry != 0 && held != entry)) then 0 else held;
    var conflict := exit && entry != 0 && held == entry;
    if entry != 0 && size > 0.0 && left == 0 && !conflict then entry else left
  }

  /** No entry, or one on the side held, keeps the side unless an exit flattens it; another side replaces it. */
  lemma AtOpenMeans(held: int, entry: int, size: real, exit: bool)
    ensures entry == 0 ==> AtOpen(held, entry, size, exit) == if exit then 0 else held
    ensures entry == held ==> AtOpen(held, entry, size, exit) == if exit then 0 else held
    ensures entry != 0 && entry != held ==> AtOpen(held, entry, size, exit) == if size > 0.0 then entry else 0
  {
  }

  /**
    The side the bracket engine holds at the close of bar `t`. `out[t]` says that the bar ended flat for a reason
    outside the intents: a protective exit, a rejected entry or a liquidation.
   */
  function EngineSide(i: Intents, out: seq<bool>, t: nat): int
    requires t < |i.entrySide| == |i.entrySize| == |i.technicalExit| == |out|
  {
    if t == 0 || out[t] then 0
    else AtOpen(EngineSide(i, out, t - 1), i.entrySide[t - 1], i.entrySize[t - 1], i.technicalExit[t - 1])
  }

  /** Bar `t` lies in the stretch of the side held at bar `t - 1`, and one of that stretch's bars ended flat. */
  ghost predicate KnockedOut(f: Frame, out: seq<bool>, t: nat)
    requires 0 < t < |f.sides| == |out|
  {
    f.sides[t - 1] != 0 && exists k :: EntryBar(f, t - 1) < k <= t && out[k]
  }

  /**
    Whatever protective exits and rejections do, the engine holds exactly the side asked for one bar before, or is
    flat until the next change of side because that side was knocked out. Without a positive weight it never enters.
   */
  lemma {:induction false} IntentsHoldTheSide(f: Frame, weight: real, out: seq<bool>, t: nat)
    requires t < |f.sides| == |out|
    ensures EngineSide(IntentsOf(f, weight), out, t)
            == if t == 0 || weight <= 0.0 || KnockedOut(f, out, t) then 0 else f.sides[t - 1]
  {
    if t == 0 {
    } else {
      IntentsHoldTheSide(f, weight, out, t - 1);
      if f.sides[t - 1] != 0 {
        StretchGrows(f, out, t);
      } else {
        NoSideNoKnock(f, out, t);
      }
    }
    hide KnockedOut;
    hide EntryBar;
  }

  lemma NoSideNoKnock(f: Frame, out: seq<bool>, t: nat)
    requires 0 < t < |f.sides| == |out| && f.sides[t - 1] == 0
    ensures !KnockedOut(f, out, t)
  {
  }

  /** One more bar of an unchanged side: it is knocked out if it was before, or if this bar ended flat. */
  lemma StretchGrows(f: Frame, out: seq<bool>, t: nat)
    requires 0 < t < |f.sides| == |out| && f.sides[t - 1] != 0
    ensures Changed(f, t - 1) ==> (KnockedOut(f, out, t) <==> out[t])
    ensures !Changed(f, t - 1) ==> t > 1 && (KnockedOut(f, out, t) <==> KnockedOut(f, out, t - 1) || out[t])
  {
    if !Changed(f, t - 1) {
      assert EntryBar(f, t - 1) == EntryBar(f, t - 2);
      if KnockedOut(f, out, t - 1) {
        var k :| EntryBar(f, t - 2) < k <= t - 1 && out[k];
      }
    }
  }

  // ---------------------------------------------------------------- the command tape

  /** The tape of the first `upto` bars; a transition on the last bar has no bar to execute on. */
  function Tape(f: Frame, symbol: string, upto: nat): seq<Stamped<string>>
    requires |f.sides| == |f.closes| && upto <= |f.sides|
    requires forall i :: 0 <= i < |f.closes| ==> f.closes[i] > 0.0
  {
    if upto == 0 then []
    else Tape(f, symbol, upto - 1)
         + if Changed(f, upto - 1) && upto < |f.sides|
           then Stamps(upto, Chase(symbol, "tape:" + Text(upto - 1), Target(f, upto - 1) - Previous(f, upto - 1)))
           else []
  }

  function Stamps(bar: nat, cs: seq<Command<string>>): seq<Stamped<string>> {
    if cs == [] then [] else [Stamped(bar, cs[0])]
  }

  method Event(f: Frame, symbol: string) returns (commands: seq<Stamped<string>>)
    requires |f.sides| == |f.closes|
    requires forall i :: 0 <= i < |f.closes| ==> f.closes[i] > 0.0
    ensures commands == Tape(f, symbol, |f.sides|)
  {
    commands := [];
    for t := 0 to |f.sides|
      invariant commands == Tape(f, symbol, t)
    {
      if Changed(f, t) {
        if t + 1 == |f.sides| {
          continue;
        }
        var delta := Target(f, t) - (if t == 0 then 0.0 else Target(f, t - 1));
        if Abs(delta) > 0.000000000001 {
          commands := commands + [Stamped(t + 1, Place(symbol,
            Order("tape:" + Text(t), if delta > 0.0 then Buy else Sell, Market, Abs(delta), false)))];
        }
      }
    }
  }

  /** The commands of one bar, in tape order. */
  function AtBar(tape: seq<Stamped<string>>, bar: nat): seq<Command<string>> {
    if tape == [] then []
    else AtBar(tape[..|tape| - 1], bar)
         + (if tape[|tape| - 1].at == bar then [tape[|tape| - 1].command] else [])
  }

  /** Net quantity of all commands executing up to a bar. */
  function NetUpTo(tape: seq<Stamped<string>>, bar: nat): real {
    if tape == [] then 0.0
    else NetUpTo(tape[..|tape| - 1], bar)
         + (var s := tape[|tape| - 1];
            if s.at <= bar && s.command.Place? then s.command.order.side.Signed(s.command.order.qty) else 0.0)
  }

  /** The tape's chase for the change of side at `t`. */
  function ChaseAt(f: Frame, symbol: string, t: nat): seq<Command<string>>
    requires |f.sides| == |f.closes| && t < |f.sides|
    requires forall i :: 0 <= i < |f.closes| ==> f.closes[i] > 0.0
  {
    Chase(symbol, "tape:" + Text(t), Target(f, t) - Previous(f, t))
  }

  lemma ChaseAppended(tape: seq<Stamped<string>>, symbol: string, id: string, delta: real, at: nat, bar: nat)
    ensures var longer := tape + Stamps(at, Chase(symbol, id, delta));
            && AtBar(longer, bar) == AtBar(tape, bar) + (if at == bar then Chase(symbol, id, delta) else [])
            && NetUpTo(longer, bar) == NetUpTo(tape, bar) + if at <= bar && Abs(delta) > EPSILON then delta else 0.0
  {
    if Abs(delta) <= EPSILON {
      assert tape + [] == tape;
    } else {
      var s := Stamped(at, Place(symbol, MarketOrder(id, delta)));
      assert (tape + [s])[..|tape|] == tape;
    }
  }

  /** One more bar of the tape. */
  lemma TapeStep(f: Frame, symbol: string, upto: nat, bar: nat)
    requires Priced(f) && 0 < upto <= |f.sides|
    ensures AtBar(Tape(f, symbol, upto), bar) == AtBar(Tape(f, symbol, upto - 1), bar)
              + if Changed(f, upto - 1) && upto < |f.sides| && upto == bar then ChaseAt(f, symbol, upto - 1) else []
    ensures var delta := Target(f, upto - 1) - Previous(f, upto - 1);
            NetUpTo(Tape(f, symbol, upto), bar) == NetUpTo(Tape(f, symbol, upto - 1), bar)
              + if Changed(f, upto - 1) && upto < |f.sides| && upto <= bar && Abs(delta) > EPSILON then delta else 0.0
  {
    hide Changed;
    hide Target;
    hide Previous;
    hide Chase;
    hide AtBar;
    hide NetUpTo;
    hide Abs;
    var before := Tape(f, symbol, upto - 1);
    if Changed(f, upto - 1) && upto < |f.sides| {
      ChaseAppended(before, symbol, "tape:" + Text(upto - 1), Target(f, upto - 1) - Previous(f, upto - 1), upto, bar);
    } else {
      assert Tape(f, symbol, upto) == before;
    }
  }

  /** What the tape of `upto` bars holds for a bar. */
  function Due(f: Frame, symbol: string, upto: nat, bar: nat): seq<Command<string>>
    requires |f.sides| == |f.closes| && upto <= |f.sides|
    requires forall i :: 0 <= i < |f.closes| ==> f.closes[i] > 0.0
  {
    if 1 <= bar <= upto && bar < |f.sides| && Changed(f, bar - 1) then ChaseAt(f, symbol, bar - 1) else []
  }

  lemma DueStep(f: Frame, symbol: string, upto: nat, bar: nat)
    requires Priced(f) && 0 < upto <= |f.sides|
    ensures Due(f, symbol, upto, bar) == Due(f, symbol, upto - 1, bar)
              + if Changed(f, upto - 1) && upto < |f.sides| && upto == bar then ChaseAt(f, symbol, upto - 1) else []
  {
    hide Changed;
    hide ChaseAt;
  }

  lemma NothingDue(f: Frame, symbol: string, bar: nat)
    requires Priced(f)
    ensures AtBar(Tape(f, symbol, 0), bar) == Due(f, symbol, 0, bar)
  {
  }

  /** The commands of one bar chase the change of side one bar before. */
  lemma {:induction false} CommandsOfBar(f: Frame, symbol: string, upto: nat, bar: nat)
    requires Priced(f) && upto <= |f.sides|
    ensures AtBar(Tape(f, symbol, upto), bar) == Due(f, symbol, upto, bar)
    decreases upto
  {
    hide *;
    if upto == 0 {
      NothingDue(f, symbol, bar);
    } else {
      CommandsOfBar(f, symbol, upto - 1, bar);
      TapeStep(f, symbol, upto, bar);
      DueStep(f, symbol, upto, bar);
    }
  }

  /** On a valid frame each transition but one on the last bar yields exactly one command; nothing else yields any. */
  lemma OneCommandPerTransition(f: Frame, symbol: string, bar: nat)
    requires Valid(f)
    ensures AtBar(Tape(f, symbol, |f.sides|), bar) ==
              if 1 <= bar < |f.sides| && Changed(f, bar - 1)
              then [Place(symbol, MarketOrder("tape:" + Text(bar - 1), Target(f, bar - 1) - Previous(f, bar - 1)))]
              else []
  {
    hide Changed;
    hide Target;
    hide Previous;
    hide Tape;
    hide AtBar;
    CommandsOfBar(f, symbol, |f.sides|, bar);
    if 1 <= bar < |f.sides| {
      TransitionsClearTheThreshold(f, bar - 1);
    }
  }

  /** The number of leading bars whose transitions execute by `bar` in the tape of `upto` bars. */
  function Executed(f: Frame, upto: nat, bar: nat): nat
    requires upto <= |f.sides|
  {
    if upto <= bar && upto < |f.sides| then upto
    else if bar < |f.sides| then bar
    else if |f.sides| == 0 then 0 else |f.sides| - 1
  }

  function TargetAfter(f: Frame, bars: nat): real
    requires |f.sides| == |f.closes| && bars <= |f.sides|
    requires forall i :: 0 <= i < |f.closes| ==> f.closes[i] > 0.0
  {
    if bars == 0 then 0.0 else Target(f, bars - 1)
  }

  lemma TargetMoves(f: Frame, upto: nat, bar: nat)
    requires Valid(f) && 0 < upto <= |f.sides|
    ensures TargetAfter(f, Executed(f, upto, bar)) == TargetAfter(f, Executed(f, upto - 1, bar))
              + if upto < |f.sides| && upto <= bar then Target(f, upto - 1) - Previous(f, upto - 1) else 0.0
  {
    hide Target;
  }

  /** The net quantity of any part of the tape, up to any bar, is the target its last transition set. */
  lemma {:induction false} NetIsTarget(f: Frame, symbol: string, upto: nat, bar: nat)
    requires Valid(f) && upto <= |f.sides|
    ensures NetUpTo(Tape(f, symbol, upto), bar) == TargetAfter(f, Executed(f, upto, bar))
    decreases upto
  {
    hide Target;
    hide NetUpTo;
    hide Tape;
    hide TargetAfter;
    hide Executed;
    hide Previous;
    hide Changed;
    if upto == 0 {
      EmptyTape(f, symbol, bar);
    } else {
      NetIsTarget(f, symbol, upto - 1, bar);
      TapeStep(f, symbol, upto, bar);
      TransitionsClearTheThreshold(f, upto - 1);
      TargetMoves(f, upto, bar);
    }
  }

  lemma EmptyTape(f: Frame, symbol: string, bar: nat)
    requires Valid(f)
    ensures NetUpTo(Tape(f, symbol, 0), bar) == TargetAfter(f, Executed(f, 0, bar))
  {
    hide Target;
  }

  /** The tape telescopes: its signed sum up to bar t+1 is the target of bar t. */
  lemma TapeTelescopes(f: Frame, symbol: string, t: nat)
    requires Valid(f) && t + 1 < |f.sides|
    ensures NetUpTo(Tape(f, symbol, |f.sides|), t + 1) == Target(f, t)
  {
    NetIsTarget(f, symbol, |f.sides|, t + 1);
  }

  // ---------------------------------------------------------------- closed loop equals open loop

  /**
    The account at bar `bar` of the tape route: the tape's commands for the bar, then full fills at
    its open.
   */
  function OpenLoop(f: Frame, symbol: string, opens: int -> real, bar: nat): Account
    requires |f.sides| == |f.closes|
    requires forall i :: 0 <= i < |f.closes| ==> f.closes[i] > 0.0
  {
    var before := if bar == 0 then FLAT else OpenLoop(f, symbol, opens, bar - 1);
    var placed := ApplyAll(before, symbol, AtBar(Tape(f, symbol, |f.sides|), bar));
    var pass := FullPass(placed, opens(bar));
    if AllAllowed(placed, pass) then AfterAll(placed, pass) else placed
  }

  /** A bar of the tape route whose commands chase `target` from the held position. */
  lemma OpenLoopStep(f: Frame, symbol: string, opens: int -> real, bar: nat, held: real, id: string, target: real)
    requires |f.sides| == |f.closes| && forall i :: 0 <= i < |f.closes| ==> f.closes[i] > 0.0
    requires Prices(opens)
    requires (if bar == 0 then FLAT else OpenLoop(f, symbol, opens, bar - 1)) == Account(held, [])
    requires AtBar(Tape(f, symbol, |f.sides|), bar) == Chase(symbol, id, target - held)
    ensures OpenLoop(f, symbol, opens, bar) == Account(if Abs(target - held) <= EPSILON then held else target, [])
  {
    hide Target;
    hide Changed;
    hide Tape;
    hide AtBar;
    hide Chase;
    hide FullPass;
    hide AllAllowed;
    hide AfterAll;
    ChaseLands(symbol, id, target, held, opens(bar));
  }

  /** At bar `bar` of the tape route the account holds the target of the bar before and nothing works. */
  ghost predicate OnTarget(f: Frame, symbol: string, opens: int -> real, bar: nat)
    requires Priced(f) && bar <= |f.sides|
  {
    OpenLoop(f, symbol, opens, bar) == Account(TargetAfter(f, bar), [])
  }

  /** From an account on target, the next bar ends on target, or stays behind an order too small to send. */
  lemma OpenLoopAdvances(f: Frame, symbol: string, opens: int -> real, bar: nat)
    requires Priced(f) && Prices(opens) && 0 < bar < |f.sides| && OnTarget(f, symbol, opens, bar - 1)
    ensures var held, target := Previous(f, bar - 1), Target(f, bar - 1);
            OpenLoop(f, symbol, opens, bar) == Account(if Abs(target - held) <= EPSILON then held else target, [])
  {
    hide Target;
    hide Changed;
    hide Tape;
    hide AtBar;
    hide OpenLoop;
    CommandsOfBar(f, symbol, |f.sides|, bar);
    var held, target := Previous(f, bar - 1), Target(f, bar - 1);
    if !Changed(f, bar - 1) {
      TargetFrozen(f, bar - 1);
    }
    OpenLoopStep(f, symbol, opens, bar, held, "tape:" + Text(bar - 1), target);
  }

  lemma TargetFrozen(f: Frame, t: nat)
    requires Priced(f) && t < |f.sides| && !Changed(f, t)
    ensures Target(f, t) == Previous(f, t)
  {
  }

  lemma OpenLoopStarts(f: Frame, symbol: string, opens: int -> real)
    requires Priced(f) && Prices(opens)
    ensures OnTarget(f, symbol, opens, 0)
  {
    CommandsOfBar(f, symbol, |f.sides|, 0);
    hide Tape;
    hide AtBar;
    OpenLoopStep(f, symbol, opens, 0, 0.0, "", 0.0);
  }

  lemma {:induction false} OpenLoopFollows(f: Frame, symbol: string, opens: int -> real, bar: nat)
    requires Valid(f) && Prices(opens) && (bar == 0 || bar < |f.sides|)
    ensures OnTarget(f, symbol, opens, bar)
    decreases bar
  {
    hide Target;
    hide Changed;
    hide OpenLoop;
    if bar == 0 {
      OpenLoopStarts(f, symbol, opens);
    } else {
      hide OnTarget;
      OpenLoopFollows(f, symbol, opens, bar - 1);
      OpenLoopAdvances(f, symbol, opens, bar);
      TransitionsClearTheThreshold(f, bar - 1);
      OnTargetNext(f, symbol, opens, bar);
    }
  }

  lemma OnTargetNext(f: Frame, symbol: string, opens: int -> real, bar: nat)
    requires Priced(f) && 0 < bar < |f.sides|
    requires OpenLoop(f, symbol, opens, bar) == Account(Target(f, bar - 1), [])
    ensures OnTarget(f, symbol, opens, bar)
  {
    hide OpenLoop;
    hide Target;
  }

  /** The tape holds the target path at every bar exactly when no executable transition is lost. */
  lemma TapeFollowsExactly(f: Frame, symbol: string, opens: int -> real)
    requires Priced(f) && Prices(opens)
    ensures (forall bar :: 0 <= bar < |f.sides| ==> OnTarget(f, symbol, opens, bar)) <==> Valid(f)
  {
    if Valid(f) {
      forall bar | 0 <= bar < |f.sides| ensures OnTarget(f, symbol, opens, bar) {
        OpenLoopFollows(f, symbol, opens, bar);
      }
    }
    if forall bar :: 0 <= bar < |f.sides| ==> OnTarget(f, symbol, opens, bar) {
      forall t | 0 <= t < |f.sides| - 1 && Changed(f, t) ensures Sized(f, t) {
        assert OnTarget(f, symbol, opens, t) && OnTarget(f, symbol, opens, t + 1);
        OnTargetMeansSized(f, symbol, opens, t);
      }
    }
  }

  lemma OnTargetMeansSized(f: Frame, symbol: string, opens: int -> real, t: nat)
    requires Priced(f) && Prices(opens) && t + 1 < |f.sides| && Changed(f, t)
    requires OnTarget(f, symbol, opens, t) && OnTarget(f, symbol, opens, t + 1)
    ensures Sized(f, t)
  {
    hide OpenLoop;
    OpenLoopAdvances(f, symbol, opens, t + 1);
    TransitionExactly(f, t);
    TargetHasTheSide(f, t);
    if t > 0 {
      TargetHasTheSide(f, t - 1);
      KnownSide(f, t - 1);
    }
    KnownSide(f, t);
    hide Sized;
    hide Target;
    hide EntryBar;
  }

  /** The target of every bar, as the callback looks it up. */
  function Path(f: Frame): int -> real
    requires |f.sides| == |f.closes|
    requires forall i :: 0 <= i < |f.closes| ==> f.closes[i] > 0.0
  {
    (t: int) => if 0 <= t < |f.sides| then Target(f, t) else 0.0
  }

  lemma ValidIsStepwise(f: Frame, from: nat, bar: nat)
    requires Valid(f) && bar < |f.sides|
    ensures Stepwise(Path(f), from, bar)
  {
    hide Sized;
    hide Changed;
    forall t | from < t < bar
      ensures Path(f)(t) == Path(f)(t - 1) || Abs(Path(f)(t) - Path(f)(t - 1)) > EPSILON
    {
      TransitionsClearTheThreshold(f, t);
      hide Target;
    }
  }

  /**
    From any perturbed position, on any priced frame, the callback is within the threshold of the target path at
    every later bar; on a valid frame it is exactly on it once its first order was not suppressed.
   */
  lemma CallbackRegainsTarget(
    f: Frame, symbol: string, opens: int -> real, from: nat, position: real, bar: nat)
    requires Priced(f) && Prices(opens) && from < bar < |f.sides|
    ensures var a := ClosedLoop(Path(f), symbol, opens, from, position, bar);
            && a.working == []
            && Abs(a.position - Target(f, bar - 1)) <= EPSILON
            && (Valid(f) && (Abs(Target(f, from) - position) > EPSILON || position == Target(f, from)) ==>
                  a.position == Target(f, bar - 1))
  {
    hide ClosedLoop;
    hide Target;
    StaysClose(Path(f), symbol, opens, from, position, bar);
    if Valid(f) && (Abs(Target(f, from) - position) > EPSILON || position == Target(f, from)) {
      ValidIsStepwise(f, from, bar);
      RegainsPath(Path(f), symbol, opens, from, position, bar);
    }
  }

  /** Run from flat, the callback and the precomputed tape hold the same position at every bar. */
  lemma ClosedEqualsOpen(f: Frame, symbol: string, opens: int -> real, bar: nat)
    requires Valid(f) && Prices(opens) && bar < |f.sides|
    ensures ClosedLoop(Path(f), symbol, opens, 0, 0.0, bar) == OpenLoop(f, symbol, opens, bar)
  {
    OpenLoopFollows(f, symbol, opens, bar);
    if bar > 0 {
      CallbackRegainsTarget(f, symbol, opens, 0, 0.0, bar);
      TransitionsClearTheThreshold(f, 0);
    }
    hide Target;
    hide OpenLoop;
  }

  // ---------------------------------------------------------------- a frame the tape loses

  /** At a price of 2.5e15 a unit position of the notional is 0.8 of the threshold. */
  const HIGH: real := 2_500_000_000_000_000.0

  /** Long, short, flat: the entry and the exit are too small to send, the reversal between them is not. */
  const DRIFTING := Frame([1, -1, 0, 0], [HIGH, HIGH, HIGH, HIGH])

  lemma DriftingTargets()
    ensures Priced(DRIFTING)
    ensures Changed(DRIFTING, 0) && Changed(DRIFTING, 1) && Changed(DRIFTING, 2)
    ensures Target(DRIFTING, 0) == 0.8 * EPSILON && Target(DRIFTING, 1) == -0.8 * EPSILON
    ensures Target(DRIFTING, 2) == 0.0
  {
    assert Changed(DRIFTING, 0) && Changed(DRIFTING, 1) && Changed(DRIFTING, 2);
  }

  /**
    On this frame the tape sends only the reversal, so it ends twice the threshold short where the target is flat,
    while the callback is within the threshold at every bar.
   */
  lemma DroppedTransition(symbol: string, opens: int -> real)
    requires Prices(opens)
    ensures Priced(DRIFTING) && !Valid(DRIFTING)
    ensures OpenLoop(DRIFTING, symbol, opens, 3) == Account(-1.6 * EPSILON, []) && Target(DRIFTING, 2) == 0.0
    ensures Abs(ClosedLoop(Path(DRIFTING), symbol, opens, 0, 0.0, 3).position) <= EPSILON
  {
    DriftingTargets();
    var f := DRIFTING;
    CommandsOfBar(f, symbol, 4, 0);
    CommandsOfBar(f, symbol, 4, 1);
    CommandsOfBar(f, symbol, 4, 2);
    CommandsOfBar(f, symbol, 4, 3);
    hide Target;
    hide Changed;
    hide Tape;
    hide AtBar;
    hide OpenLoop;
    OpenLoopStarts(f, symbol, opens);
    OpenLoopStep(f, symbol, opens, 1, 0.0, "tape:" + Text(0), 0.8 * EPSILON);
    OpenLoopStep(f, symbol, opens, 2, 0.0, "tape:" + Text(1), -1.6 * EPSILON);
    OpenLoopStep(f, symbol, opens, 3, -1.6 * EPSILON, "tape:" + Text(2), -0.8 * EPSILON);
    CallbackRegainsTarget(f, symbol, opens, 0, 0.0, 3);
    TransitionExactly(f, 0);
    hide Sized;
  }
}
