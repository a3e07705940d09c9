/**
  The ladder against any fill behaviour the matching contract permits: entries and exits fill in any part, and
  what is left of a reduce-only exit keeps working. The ladder has one weakness: it opens the next step without
  looking at the position, so its bound holds exactly when the position is zero at every entry.
*/
module LadderSafety {
  import opened Matching
  import opened Ladder
  import opened Shared

  // ---------------------------------------------------------------- the commands of one bar

  /** Stable timestamp order, bar by bar: the commands stamped `at`, in emission order. */
  function At(tape: seq<Stamped<string>>, at: int): seq<Command<string>> {
    if tape == [] then []
    else (if tape[0].at == at then [tape[0].command] else []) + At(tape[1..], at)
  }

  lemma {:induction false} AtConcat(a: seq<Stamped<string>>, b: seq<Stamped<string>>, at: int)
    ensures At(a + b, at) == At(a, at) + At(b, at)
  {
    if a == [] {
      assert a + b == b;
    } else {
      var rest := a[1..];
      assert (a + b)[1..] == rest + b && (a + b)[0] == a[0];
      AtConcat(rest, b, at);
      var first := if a[0].at == at then [a[0].command] else [];
      assert first + (At(rest, at) + At(b, at)) == (first + At(rest, at)) + At(b, at);
    }
  }

  function Entry(leg: (string, Side), closes: Closes, index: seq<int>, i: nat): Order
    requires i + 3 < |index| && leg.0 in closes && |closes[leg.0]| == |index|
  {
    EntryOrder(leg, index[i + 1], closes[leg.0][i])
  }

  function Exit(leg: (string, Side), index: seq<int>, i: nat): Order
    requires i + 3 < |index|
  {
    ExitOrder(leg, index[i + 3])
  }

  lemma LegAt(leg: (string, Side), closes: Closes, index: seq<int>, i: nat, b: nat)
    requires i + 3 < |index| && leg.0 in closes && |closes[leg.0]| == |index|
    requires Increasing(index) && b < |index|
    ensures At(LegCommands(leg, closes, index, i), index[b]) ==
              if b == i + 1 then [Place(leg.0, Entry(leg, closes, index, i))]
              else if b == i + 3 then [Cancel(EntryId(leg.0, index[i + 1])), Place(leg.0, Exit(leg, index, i))]
              else []
  {
    hide EntryId;
    hide EntryOrder;
    hide ExitOrder;
    var s := LegCommands(leg, closes, index, i);
    assert index[i + 1] == index[b] ==> b == i + 1;
    assert index[i + 3] == index[b] ==> b == i + 3;
    assert s == [s[0]] + ([s[1]] + [s[2]]);
    AtConcat([s[0]], [s[1]] + [s[2]], index[b]);
    AtConcat([s[1]], [s[2]], index[b]);
    AtOne(s[0], index[b]);
    AtOne(s[1], index[b]);
    AtOne(s[2], index[b]);
  }

  lemma AtOne(s: Stamped<string>, at: int)
    ensures At([s], at) == if s.at == at then [s.command] else []
  {
    assert [s][1..] == [];
  }

  /** Steps of three bars or more do not meet. */
  lemma OneStep(n: nat, i: int)
    requires n >= 3 && IsStep(n, i)
    ensures !IsStep(n, i + 2) && !IsStep(n, i - 2) && !IsStep(n, i + 1) && !IsStep(n, i - 1)
  {
    NotAStep(n, i, 1);
    NotAStep(n, i, 2);
    NotAStep(n, i, -1);
    NotAStep(n, i, -2);
  }

  lemma NotAStep(n: nat, i: int, d: int)
    requires n >= 3 && IsStep(n, i) && -2 <= d <= 2 && d != 0
    ensures !IsStep(n, i + d)
  {
    if IsStep(n, i + d) {
      var k, q := i / n, (i + d) / n;
      assert i == k * n && i + d == q * n;
      Multiples(n, q - k, if d > 0 then d else -d);
      Multiples(n, k - q, if d > 0 then d else -d);
    }
  }

  /** The bar's share of a tape: from the step entered there or the step left there. */
  function Share(route: Route, closes: Closes, n: nat, index: seq<int>, upto: nat, b: nat): seq<Command<string>>
    requires n > 0 && Priced(route, closes, index) && b < |index| && (upto == 0 || upto + 3 <= |index|)
  {
    if 1 <= b <= upto && IsStep(n, b - 1) then At(StepCommands(route, closes, index, b - 1), index[b])
    else if 3 <= b <= upto + 2 && IsStep(n, b - 3) then At(StepCommands(route, closes, index, b - 3), index[b])
    else []
  }

  lemma ShareGrows(route: Route, closes: Closes, n: nat, index: seq<int>, upto: nat, b: nat)
    requires n >= 3 && Priced(route, closes, index) && Increasing(index) && b < |index|
    requires 0 < upto && upto + 3 <= |index|
    ensures Share(route, closes, n, index, upto, b) == Share(route, closes, n, index, upto - 1, b)
              + if IsStep(n, upto - 1) then At(StepCommands(route, closes, index, upto - 1), index[b]) else []
  {
    hide StepCommands;
    hide IsStep;
    hide At;
    hide IsSymbol;
    if IsStep(n, upto - 1) {
      OneStep(n, upto - 1);
      if b != upto && b != upto + 2 {
        StepElsewhere(route, closes, index, upto - 1, b);
      }
    }
  }

  lemma {:induction false} TapeAt(route: Route, closes: Closes, n: nat, index: seq<int>, upto: nat, b: nat)
    requires n >= 3 && Priced(route, closes, index) && Increasing(index) && b < |index|
    requires upto == 0 || upto + 3 <= |index|
    ensures At(Tape(route, closes, n, index, upto), index[b]) == Share(route, closes, n, index, upto, b)
    decreases upto
  {
    hide StepCommands;
    hide IsStep;
    hide IsSymbol;
    if upto == 0 {
    } else {
      hide Share;
      hide At;
      TapeAt(route, closes, n, index, upto - 1, b);
      ShareGrows(route, closes, n, index, upto, b);
      if IsStep(n, upto - 1) {
        AtConcat(Tape(route, closes, n, index, upto - 1), StepCommands(route, closes, index, upto - 1), index[b]);
      } else {
        assert Tape(route, closes, n, index, upto) == Tape(route, closes, n, index, upto - 1);
      }
    }
  }

  lemma StepElsewhere(route: Route, closes: Closes, index: seq<int>, i: nat, b: nat)
    requires Priced(route, closes, index) && Increasing(index) && i + 3 < |index| && b < |index|
    requires b != i + 1 && b != i + 3
    ensures At(StepCommands(route, closes, index, i), index[b]) == []
  {
    StepLegs(route, closes, index, i, b);
  }

  /** A step's commands at one bar, leg by leg. */
  lemma StepLegs(route: Route, closes: Closes, index: seq<int>, i: nat, b: nat)
    requires Priced(route, closes, index) && Increasing(index) && i + 3 < |index| && b < |index|
    ensures var legs := Legs(route, index[i + 1]);
            && IsSymbol(route, legs[0].0) && (|legs| == 2 ==> IsSymbol(route, legs[1].0))
            && At(StepCommands(route, closes, index, i), index[b])
               == LegBar(legs[0], closes, index, i, b)
                  + if |legs| == 2 then LegBar(legs[1], closes, index, i, b) else []
  {
    var legs := Legs(route, index[i + 1]);
    LegsKnown(route, index[i + 1]);
    hide Legs;
    hide IsSymbol;
    hide EntryId;
    LegAt(legs[0], closes, index, i, b);
    if |legs| == 2 {
      LegAt(legs[1], closes, index, i, b);
      AtConcat(LegCommands(legs[0], closes, index, i), LegCommands(legs[1], closes, index, i), index[b]);
    } else {
      assert LegCommands(legs[0], closes, index, i) + [] == LegCommands(legs[0], closes, index, i);
    }
  }

  function LegBar(leg: (string, Side), closes: Closes, index: seq<int>, i: nat, b: nat): seq<Command<string>>
    requires i + 3 < |index| && leg.0 in closes && |closes[leg.0]| == |index|
  {
    if b == i + 1 then [Place(leg.0, Entry(leg, closes, index, i))]
    else if b == i + 3 then [Cancel(EntryId(leg.0, index[i + 1])), Place(leg.0, Exit(leg, index, i))]
    else []
  }

  // ---------------------------------------------------------------- the commands of one book

  /** The trading side of each symbol: the perpetual is the short leg. */
  function SideOf(symbol: string): Side {
    if symbol == PERP then Sell else Buy
  }

  function LegOf(symbol: string): (string, Side) {
    (symbol, SideOf(symbol))
  }

  lemma LegSide(route: Route, entry: int, leg: (string, Side))
    requires leg in Legs(route, entry)
    ensures leg == LegOf(leg.0) && IsSymbol(route, leg.0)
  {
    assert |QUARTER_1| == 9 && |QUARTER_2| == 9 && |PERP| == 4 && |SINGLE| == 1;
  }

  /** A step starts at bar `i` and trades the symbol. */
  predicate Trades(route: Route, n: nat, index: seq<int>, symbol: string, i: int)
    requires n > 0
  {
    0 <= i && i + 3 < |index| && IsStep(n, i) && LegOf(symbol) in Legs(route, index[i + 1])
  }

  /** The book of one symbol after the commands of bar `b`. */
  function Commanded(route: Route, closes: Closes, n: nat, index: seq<int>, symbol: string, a: Account,
                     b: nat): Account
    requires n > 0 && Priced(route, closes, index) && b < |index|
  {
    ApplyAll(a, symbol, At(FullTape(route, closes, n, index), index[b]))
  }

  /** No working order bears the entry identifier of another symbol. */
  ghost predicate OwnIds(route: Route, symbol: string, working: seq<Order>) {
    forall o, l, t :: o in working && IsSymbol(route, l) && l != symbol ==> o.id != EntryId(l, t)
  }

  /** What a cancel of the symbol's entry and the reduce-only exit make of a book. */
  function Exited(a: Account, id: string, exit: Order): Account {
    Account(a.position, Without(a.working, id) + [exit])
  }

  lemma PlaceOne(a: Account, symbol: string, s: string, o: Order)
    ensures ApplyAll(a, symbol, [Place(s, o)]) == Apply(a, symbol, Place(s, o))
  {
    var cs: seq<Command<string>> := [Place(s, o)];
    assert cs[1..] == [];
  }

  lemma {:induction false} WithoutAbsent(os: seq<Order>, id: string)
    requires forall o :: o in os ==> o.id != id
    ensures Without(os, id) == os
  {
    if os == [] {
    } else {
      WithoutAbsent(os[1..], id);
    }
  }

  lemma {:induction false} WithoutKeeps(os: seq<Order>, id: string)
    ensures forall o :: o in Without(os, id) <==> o in os && o.id != id
    ensures |Without(os, id)| <= |os|
  {
    if os == [] {
    } else {
      WithoutKeeps(os[1..], id);
      assert os == [os[0]] + os[1..];
    }
  }

  function ExitPair(leg: string, id: string, exit: Order): seq<Command<string>> {
    [Cancel(id), Place(leg, exit)]
  }

  lemma LegExitEffect(a: Account, symbol: string, leg: string, id: string, exit: Order)
    ensures ApplyAll(a, symbol, ExitPair(leg, id, exit))
            == Account(a.position, Without(a.working, id) + if leg == symbol then [exit] else [])
  {
    var cs: seq<Command<string>> := ExitPair(leg, id, exit);
    assert cs[1..] == [cs[1]];
    var kept := Without(a.working, id);
    PlaceOne(a.(working := kept), symbol, leg, exit);
    assert kept + [] == kept;
  }

  /** The exits of two legs do not disturb each other's books. */
  lemma TwoExits(a: Account, symbol: string, l: string, i: string, x: Order, m: string, j: string, y: Order)
    requires l != m && x.id != j
    requires forall o :: o in a.working ==> (l != symbol ==> o.id != i) && (m != symbol ==> o.id != j)
    ensures ApplyAll(a, symbol, ExitPair(l, i, x) + ExitPair(m, j, y))
            == if l == symbol then Exited(a, i, x) else if m == symbol then Exited(a, j, y) else a
  {
    hide ExitPair;
    ApplyAllConcat(a, symbol, ExitPair(l, i, x), ExitPair(m, j, y));
    LegExitEffect(a, symbol, l, i, x);
    var first := ApplyAll(a, symbol, ExitPair(l, i, x));
    LegExitEffect(first, symbol, m, j, y);
    hide ApplyAll;
    WithoutKeeps(a.working, i);
    if l != symbol {
      WithoutAbsent(a.working, i);
      assert a.working + [] == a.working;
    }
    if m != symbol {
      WithoutAbsent(first.working, j);
      assert first.working + [] == first.working;
    }
  }

  /** The two legs' shares of a bar on which a step enters. */
  lemma TwoEntries(a: Account, symbol: string, l: string, x: Order, m: string, y: Order)
    requires l != m
    ensures ApplyAll(a, symbol, [Place(l, x)] + [Place(m, y)])
            == a.(working := a.working + if l == symbol then [x] else if m == symbol then [y] else [])
  {
    ApplyAllConcat(a, symbol, [Place(l, x)], [Place(m, y)]);
    PlaceOne(a, symbol, l, x);
    PlaceOne(Apply(a, symbol, Place(l, x)), symbol, m, y);
    assert a.working + [] == a.working;
  }

  /** The bar on which step `b - 1` enters: its order joins the book of each symbol it trades. */
  lemma EntryCommands(route: Route, closes: Closes, n: nat, index: seq<int>, symbol: string, a: Account, b: nat)
    requires n >= 3 && Priced(route, closes, index) && Increasing(index) && b < |index|
    requires 1 <= b <= Steps(index) && IsStep(n, b - 1)
    ensures Trades(route, n, index, symbol, b - 1) ==> IsSymbol(route, symbol)
    ensures Commanded(route, closes, n, index, symbol, a, b)
            == if Trades(route, n, index, symbol, b - 1)
               then a.(working := a.working + [Entry(LegOf(symbol), closes, index, b - 1)]) else a
  {
    var i := b - 1;
    var legs := Legs(route, index[i + 1]);
    TapeAt(route, closes, n, index, Steps(index), b);
    StepLegs(route, closes, index, i, b);
    LegsKnown(route, index[i + 1]);
    LegsByName(route, index[i + 1], symbol);
    hide Legs;
    hide IsSymbol;
    hide Tape;
    hide StepCommands;
    hide EntryOrder;
    hide IsStep;
    hide SideOf;
    hide ApplyAll;
    assert a.working + [] == a.working;
    if |legs| == 2 {
      TwoEntries(a, symbol, legs[0].0, Entry(legs[0], closes, index, i),
                 legs[1].0, Entry(legs[1], closes, index, i));
    } else {
      var first := [Place(legs[0].0, Entry(legs[0], closes, index, i))];
      assert first + [] == first;
      PlaceOne(a, symbol, legs[0].0, Entry(legs[0], closes, index, i));
    }
  }

  /** A step trades a symbol exactly when one of its legs is named so, and then on the symbol's side. */
  lemma LegsByName(route: Route, entry: int, symbol: string)
    ensures var legs := Legs(route, entry);
            && (LegOf(symbol) in legs <==> legs[0].0 == symbol || (|legs| == 2 && legs[1].0 == symbol))
            && (legs[0].0 == symbol ==> legs[0] == LegOf(symbol))
            && (|legs| == 2 && legs[1].0 == symbol ==> legs[1] == LegOf(symbol))
            && (LegOf(symbol) in legs ==> IsSymbol(route, symbol))
  {
    var legs := Legs(route, entry);
    LegsKnown(route, entry);
    LegSide(route, entry, legs[0]);
    if |legs| == 2 {
      LegSide(route, entry, legs[1]);
    }
    hide Legs;
    hide IsSymbol;
    hide SideOf;
  }

  /**
    The bar on which step `b - 3` leaves: whatever of the symbol's entry still works is cancelled before its exit
    is placed, and the book of a symbol the step does not trade is left alone.
   */
  lemma ExitCommands(route: Route, closes: Closes, n: nat, index: seq<int>, symbol: string, a: Account, b: nat)
    requires n >= 3 && Priced(route, closes, index) && Increasing(index) && b < |index|
    requires 3 <= b && IsStep(n, b - 3) && OwnIds(route, symbol, a.working)
    ensures Commanded(route, closes, n, index, symbol, a, b)
            == if Trades(route, n, index, symbol, b - 3)
               then Exited(a, EntryId(symbol, index[b - 2]), Exit(LegOf(symbol), index, b - 3)) else a
  {
    var i := b - 3;
    var legs := Legs(route, index[i + 1]);
    OneStep(n, i);
    TapeAt(route, closes, n, index, Steps(index), b);
    StepLegs(route, closes, index, i, b);
    LegsKnown(route, index[i + 1]);
    LegsByName(route, index[i + 1], symbol);
    var id0, x0 := EntryId(legs[0].0, index[i + 1]), Exit(legs[0], index, i);
    hide Legs;
    hide IsSymbol;
    hide Tape;
    hide StepCommands;
    hide IsStep;
    hide SideOf;
    hide ApplyAll;
    hide Exited;
    hide EntryId;
    if |legs| == 2 {
      var id1, x1 := EntryId(legs[1].0, index[i + 1]), Exit(legs[1], index, i);
      EntryIsNotExit(legs[1].0, index[i + 1], legs[0].0, index[i + 3]);
      hide ExitId;
      TwoExits(a, symbol, legs[0].0, id0, x0, legs[1].0, id1, x1);
    } else {
      hide ExitOrder;
      var only := ExitPair(legs[0].0, id0, x0);
      assert only + [] == only;
      OneExit(a, symbol, legs[0].0, id0, x0);
    }
  }

  lemma OneExit(a: Account, symbol: string, leg: string, id: string, exit: Order)
    requires leg != symbol ==> forall o :: o in a.working ==> o.id != id
    ensures ApplyAll(a, symbol, ExitPair(leg, id, exit)) == if leg == symbol then Exited(a, id, exit) else a
  {
    LegExitEffect(a, symbol, leg, id, exit);
    if leg != symbol {
      WithoutAbsent(a.working, id);
      assert a.working + [] == a.working;
    }
  }

  /** Every other bar leaves the book alone. */
  lemma QuietCommands(route: Route, closes: Closes, n: nat, index: seq<int>, symbol: string, a: Account, b: nat)
    requires n >= 3 && Priced(route, closes, index) && Increasing(index) && b < |index|
    requires !(1 <= b <= Steps(index) && IsStep(n, b - 1)) && !(3 <= b && IsStep(n, b - 3))
    ensures Commanded(route, closes, n, index, symbol, a, b) == a
  {
    TapeAt(route, closes, n, index, Steps(index), b);
    hide Tape;
    hide IsSymbol;
    hide IsStep;
  }

  // ---------------------------------------------------------------- what a book may hold

  /** The working orders on one side. */
  function On(os: seq<Order>, side: Side): seq<Order> {
    if os == [] then [] else (if os[0].side == side then [os[0]] else []) + On(os[1..], side)
  }

  lemma {:induction false} OnConcat(a: seq<Order>, b: seq<Order>, side: Side)
    ensures On(a + b, side) == On(a, side) + On(b, side)
  {
    if a == [] {
      assert a + b == b;
    } else {
      assert (a + b)[1..] == a[1..] + b;
      OnConcat(a[1..], b, side);
    }
  }

  lemma OnSplit(os: seq<Order>, slot: nat, o: Order, side: Side)
    requires slot < |os|
    ensures |On(os, side)| == |On(Removed(os, slot), side)| + if os[slot].side == side then 1 else 0
    ensures |On(os[slot := o], side)| == |On(Removed(os, slot), side)| + if o.side == side then 1 else 0
  {
    var l, r := os[..slot], os[slot + 1..];
    assert os == l + ([os[slot]] + r) && os[slot := o] == l + ([o] + r);
    OnConcat(l, [os[slot]] + r, side);
    OnConcat([os[slot]], r, side);
    OnConcat(l, [o] + r, side);
    OnConcat([o], r, side);
    OnConcat(l, r, side);
    OnOne(os[slot], side);
    OnOne(o, side);
  }

  lemma OnOne(o: Order, side: Side)
    ensures On([o], side) == if o.side == side then [o] else []
  {
    assert [o][1..] == [];
  }

  /** A pass adds no order, and neither the identifier nor the kind of an order changes. */
  lemma {:induction false} PassAddsNothing(a: Account, es: seq<Event>, side: Side)
    requires AllAllowed(a, es)
    ensures |AfterAll(a, es).working| <= |a.working|
    ensures |On(AfterAll(a, es).working, side)| <= |On(a.working, side)|
    ensures forall o :: o in AfterAll(a, es).working ==> exists p :: p in a.working && p == o.(qty := p.qty)
    decreases |es|
  {
    if es == [] {
      forall o | o in a.working ensures exists p :: p in a.working && p == o.(qty := p.qty) {
        assert o == o.(qty := o.qty);
      }
    } else {
      var b := After(a, es[0]);
      OneEventAddsNothing(a, es[0], side);
      hide After;
      hide Allowed;
      PassAddsNothing(b, es[1..], side);
      forall o | o in AfterAll(a, es).working ensures exists p :: p in a.working && p == o.(qty := p.qty) {
        var q :| q in b.working && q == o.(qty := q.qty);
        var p :| p in a.working && p == q.(qty := p.qty);
        assert p == o.(qty := p.qty);
      }
    }
  }

  lemma OneEventAddsNothing(a: Account, e: Event, side: Side)
    requires Allowed(a, e)
    ensures |After(a, e).working| <= |a.working|
    ensures |On(After(a, e).working, side)| <= |On(a.working, side)|
    ensures forall o :: o in After(a, e).working ==> exists p :: p in a.working && p == o.(qty := p.qty)
  {
    var o, b := a.working[e.slot], After(a, e);
    OnSplit(a.working, e.slot, if e.Fill? then o.(qty := o.qty - e.qty) else o, side);
    hide On;
    forall k | 0 <= k < |b.working|
      ensures exists p :: p in a.working && p == b.working[k].(qty := p.qty)
    {
      var p := if b.working[k] in a.working then b.working[k] else o;
      assert p in a.working && p == b.working[k].(qty := p.qty);
    }
  }

  /** The orders the ladder places for a symbol: entries on its side, reduce-only exits on the other. */
  ghost predicate IsEntry(symbol: string, at: int, o: Order) {
    o.side == SideOf(symbol) && o.id == EntryId(symbol, at)
  }

  ghost predicate IsExit(symbol: string, o: Order) {
    o.side == SideOf(symbol).Opposite() && o.reduceOnly && o.pricing.Market? && exists t :: o.id == ExitId(symbol, t)
  }

  /** The step, if any, that holds the symbol at the close of bar `b`: entered at `b` or one bar before. */
  function Current(route: Route, n: nat, index: seq<int>, symbol: string, b: int): Option<int>
    requires n > 0
  {
    if Trades(route, n, index, symbol, b - 1) then Some(b - 1)
    else if Trades(route, n, index, symbol, b - 2) then Some(b - 2)
    else None
  }

  /**
    The book of a symbol at the close of bar `b`: one-sided and within its lot, with at most the entry of the
    current step beside any number of exits; with no step current, no entry works and an exit covers the position.
   */
  ghost predicate Safe(route: Route, n: nat, index: seq<int>, symbol: string, a: Account, b: int)
    requires n > 0
  {
    var side, current := SideOf(symbol), Current(route, n, index, symbol, b);
    && OneSided(a, side, LEG_QTY)
    && |On(a.working, side)| <= 1
    && (forall o :: o in a.working ==>
          IsExit(symbol, o) || (current.Some? && IsEntry(symbol, index[current.value + 1], o)))
    && (current.None? ==> Covered(a, side))
  }

  /** The position between 0 and the signed lot, and at most one entry working. */
  ghost predicate Within(symbol: string, a: Account) {
    0.0 <= SideOf(symbol).Signed(a.position) <= LEG_QTY && |On(a.working, SideOf(symbol))| <= 1
  }

  // ---------------------------------------------------------------- every bar keeps the book safe

  lemma ExitIdIsOwn(symbol: string, o: Order, l: string, t: int)
    requires IsExit(symbol, o)
    ensures o.id != EntryId(l, t)
  {
    hide EntryId;
    hide ExitId;
    var u :| o.id == ExitId(symbol, u);
    EntryIsNotExit(l, t, symbol, u);
  }

  lemma EntryIdIsOwn(route: Route, symbol: string, at: int, o: Order, l: string, t: int)
    requires IsEntry(symbol, at, o) && IsSymbol(route, symbol) && IsSymbol(route, l) && l != symbol
    ensures o.id != EntryId(l, t)
  {
    SymbolColonFree(route, symbol);
    SymbolColonFree(route, l);
    hide EntryId;
    if o.id == EntryId(l, t) {
      EntryIdInjective(symbol, at, l, t);
    }
  }

  lemma CurrentIsSymbol(route: Route, n: nat, index: seq<int>, symbol: string, b: int)
    requires n > 0 && Current(route, n, index, symbol, b).Some?
    ensures IsSymbol(route, symbol) && 0 <= Current(route, n, index, symbol, b).value < |index| - 3
  {
    LegsByName(route, index[Current(route, n, index, symbol, b).value + 1], symbol);
    hide Legs;
    hide IsSymbol;
  }

  lemma SafeOwnIds(route: Route, n: nat, index: seq<int>, symbol: string, a: Account, b: int)
    requires n > 0 && Safe(route, n, index, symbol, a, b)
    ensures OwnIds(route, symbol, a.working)
  {
    var current := Current(route, n, index, symbol, b);
    if current.Some? {
      CurrentIsSymbol(route, n, index, symbol, b);
    }
    hide Current;
    hide EntryId;
    hide ExitId;
    hide OneSided;
    hide Covered;
    hide On;
    hide IsExit;
    hide IsEntry;
    hide IsSymbol;
    forall o, l, t | o in a.working && IsSymbol(route, l) && l != symbol
      ensures o.id != EntryId(l, t)
    {
      if IsExit(symbol, o) {
        ExitIdIsOwn(symbol, o, l, t);
      } else {
        EntryIdIsOwn(route, symbol, index[current.value + 1], o, l, t);
      }
    }
  }

  lemma {:induction false} NoneOn(os: seq<Order>, side: Side)
    requires forall o :: o in os ==> o.side != side
    ensures On(os, side) == [] && Working(os, side) == 0.0
  {
    if os == [] {
    } else {
      NoneOn(os[1..], side);
    }
  }

  /** An account whose other orders only reduce takes one more order. */
  lemma OneMore(os: seq<Order>, o: Order, side: Side)
    requires forall p :: p in os ==> p.side != side
    ensures On(os + [o], side) == if o.side == side then [o] else []
    ensures Working(os + [o], side) == if o.side == side then o.qty else 0.0
  {
    NoneOn(os, side);
    OnConcat(os, [o], side);
    WorkingConcat(os, [o], side);
    OnOne(o, side);
    assert [o][1..] == [];
  }

  lemma EntryShape(symbol: string, closes: Closes, index: seq<int>, i: nat)
    requires i + 3 < |index| && symbol in closes && |closes[symbol]| == |index|
    ensures var e := Entry(LegOf(symbol), closes, index, i);
            && IsEntry(symbol, index[i + 1], e) && e.qty == LEG_QTY && !e.reduceOnly
            && e.pricing == Limit(closes[symbol][i] * (1.0 - 0.002))
  {
    hide EntryId;
  }

  lemma ExitShape(symbol: string, index: seq<int>, i: nat)
    requires i + 3 < |index|
    ensures var e := Exit(LegOf(symbol), index, i);
            IsExit(symbol, e) && e.qty == LEG_QTY && e.id == ExitId(symbol, index[i + 3])
  {
    hide ExitId;
    assert Exit(LegOf(symbol), index, i).id == ExitId(symbol, index[i + 3]);
  }

  /** When a step enters or leaves the symbol, no other step holds it. */
  lemma CurrentMoves(route: Route, n: nat, index: seq<int>, symbol: string, b: int)
    requires n >= 3
    ensures Trades(route, n, index, symbol, b - 1) ==>
              && Current(route, n, index, symbol, b) == Some(b - 1)
              && Current(route, n, index, symbol, b - 1) == None
    ensures Trades(route, n, index, symbol, b - 3) ==>
              && Current(route, n, index, symbol, b) == None
              && Current(route, n, index, symbol, b - 1) == Some(b - 3)
    ensures !Trades(route, n, index, symbol, b - 1) && !Trades(route, n, index, symbol, b - 3) ==>
              Current(route, n, index, symbol, b) == Current(route, n, index, symbol, b - 1)
  {
    if IsStep(n, b - 1) {
      OneStep(n, b - 1);
    }
    if IsStep(n, b - 3) {
      OneStep(n, b - 3);
    }
    hide IsStep;
    hide Legs;
  }

  ghost predicate ExitsOnly(symbol: string, working: seq<Order>) {
    forall o :: o in working ==> IsExit(symbol, o) && o.qty > 0.0
  }

  lemma ExitsReduce(symbol: string, working: seq<Order>)
    requires ExitsOnly(symbol, working)
    ensures ReducingOnly(working, SideOf(symbol)) && Positive(working)
    ensures forall o :: o in working ==> o.side != SideOf(symbol) && o.pricing.Market?
  {
  }

  /** A zero position with exits only takes an entry of one lot. */
  lemma EntryFits(symbol: string, a: Account, e: Order)
    requires a.position == 0.0 && ExitsOnly(symbol, a.working)
    requires e.side == SideOf(symbol) && e.qty == LEG_QTY && !e.reduceOnly
    ensures var c := a.(working := a.working + [e]);
            OneSided(c, SideOf(symbol), LEG_QTY) && |On(c.working, SideOf(symbol))| <= 1
  {
    ExitsReduce(symbol, a.working);
    hide ExitsOnly;
    OneMore(a.working, e, SideOf(symbol));
    hide On;
    hide Working;
    hide SideOf;
  }

  /** A fresh exit of one lot covers any position within the lot. */
  lemma ExitCovers(symbol: string, position: real, kept: seq<Order>, x: Order)
    requires 0.0 <= SideOf(symbol).Signed(position) <= LEG_QTY
    requires ExitsOnly(symbol, kept) && ExitsOnly(symbol, [x]) && x.qty == LEG_QTY
    ensures var c := Account(position, kept + [x]);
            && OneSided(c, SideOf(symbol), LEG_QTY) && On(c.working, SideOf(symbol)) == []
            && Covered(c, SideOf(symbol)) && ExitsOnly(symbol, c.working)
  {
    assert x in [x];
    ExitsReduce(symbol, kept);
    ExitsReduce(symbol, [x]);
    var c := Account(position, kept + [x]);
    assert ExitsOnly(symbol, c.working);
    hide ExitsOnly;
    hide SideOf;
    OneMore(kept, x, SideOf(symbol));
    hide On;
    hide Working;
    assert c.working[|kept|] == x;
    assert Covers(c, SideOf(symbol), x);
  }

  ghost predicate MarketsDone(a: Account) {
    forall o :: o in a.working ==> !o.pricing.Market?
  }

  /** Outside a step only exits work. */
  lemma SafeOutside(route: Route, n: nat, index: seq<int>, symbol: string, a: Account, b: int)
    requires n > 0 && Safe(route, n, index, symbol, a, b) && Current(route, n, index, symbol, b).None?
    ensures ExitsOnly(symbol, a.working) && On(a.working, SideOf(symbol)) == [] && Covered(a, SideOf(symbol))
    ensures MarketsDone(a) ==> a == FLAT
  {
    hide Current;
    hide ExitId;
    hide EntryId;
    ExitsReduce(symbol, a.working);
    NoneOn(a.working, SideOf(symbol));
    if a.working != [] {
      assert a.working[0] in a.working;
    }
  }

  /** An entry on a zero position is safe. */
  lemma EntersSafely(route: Route, closes: Closes, n: nat, index: seq<int>, symbol: string, a: Account, b: nat)
    requires n >= 3 && Priced(route, closes, index) && Increasing(index) && b < |index|
    requires Trades(route, n, index, symbol, b - 1) && a.position == 0.0
    requires Safe(route, n, index, symbol, a, b - 1)
    ensures Safe(route, n, index, symbol, Commanded(route, closes, n, index, symbol, a, b), b)
  {
    CurrentMoves(route, n, index, symbol, b);
    EntryCommands(route, closes, n, index, symbol, a, b);
    SafeOutside(route, n, index, symbol, a, b - 1);
    hide Current;
    hide Commanded;
    var e := Entry(LegOf(symbol), closes, index, b - 1);
    EntryShape(symbol, closes, index, b - 1);
    hide *;
    EntryFits(symbol, a, e);
    SafeEntered(route, n, index, symbol, a, e, b);
  }

  lemma SafeEntered(route: Route, n: nat, index: seq<int>, symbol: string, a: Account, e: Order, b: nat)
    requires n > 0 && Current(route, n, index, symbol, b) == Some(b - 1) && 0 < b < |index|
    requires ExitsOnly(symbol, a.working) && IsEntry(symbol, index[b], e)
    requires OneSided(a.(working := a.working + [e]), SideOf(symbol), LEG_QTY)
    requires |On(a.working + [e], SideOf(symbol))| <= 1
    ensures Safe(route, n, index, symbol, a.(working := a.working + [e]), b)
  {
    hide Current;
    hide OneSided;
    hide On;
    hide IsExit;
    hide IsEntry;
  }

  /** The exit bar is safe whatever the entry did: from then on the new exit covers the position. */
  lemma LeavesSafely(route: Route, closes: Closes, n: nat, index: seq<int>, symbol: string, a: Account, b: nat)
    requires n >= 3 && Priced(route, closes, index) && Increasing(index) && b < |index|
    requires Trades(route, n, index, symbol, b - 3)
    requires Safe(route, n, index, symbol, a, b - 1)
    ensures Safe(route, n, index, symbol, Commanded(route, closes, n, index, symbol, a, b), b)
  {
    CurrentMoves(route, n, index, symbol, b);
    SafeOwnIds(route, n, index, symbol, a, b - 1);
    ExitCommands(route, closes, n, index, symbol, a, b);
    PassKeepsOneSided(a, [], SideOf(symbol), LEG_QTY);
    var x, id := Exit(LegOf(symbol), index, b - 3), EntryId(symbol, index[b - 2]);
    ExitShape(symbol, index, b - 3);
    EntriesLeave(route, n, index, symbol, a, b);
    var kept := Without(a.working, id);
    assert ExitsOnly(symbol, [x]);
    assert 0.0 <= SideOf(symbol).Signed(a.position) <= LEG_QTY;
    hide *;
    ExitCovers(symbol, a.position, kept, x);
    SafeLeft(route, n, index, symbol, Account(a.position, kept + [x]), b);
    ExitedIs(a, id, x);
  }

  lemma ExitedIs(a: Account, id: string, x: Order)
    ensures Exited(a, id, x) == Account(a.position, Without(a.working, id) + [x])
  {
  }

  lemma EntriesLeave(route: Route, n: nat, index: seq<int>, symbol: string, a: Account, b: nat)
    requires n > 0 && 3 <= b < |index| && Safe(route, n, index, symbol, a, b - 1)
    requires Current(route, n, index, symbol, b - 1) == Some(b - 3)
    ensures ExitsOnly(symbol, Without(a.working, EntryId(symbol, index[b - 2])))
  {
    hide Current;
    hide ExitId;
    hide On;
    hide OneSided;
    hide Covered;
    assert Positive(a.working) by {
      SafeIsPositive(route, n, index, symbol, a, b - 1);
    }
    KeptAreExits(symbol, a.working, index[b - 2]);
  }

  lemma SafeIsPositive(route: Route, n: nat, index: seq<int>, symbol: string, a: Account, b: int)
    requires n > 0 && Safe(route, n, index, symbol, a, b)
    ensures Positive(a.working)
  {
  }

  lemma KeptAreExits(symbol: string, working: seq<Order>, at: int)
    requires Positive(working)
    requires forall o :: o in working ==> IsExit(symbol, o) || IsEntry(symbol, at, o)
    ensures ExitsOnly(symbol, Without(working, EntryId(symbol, at)))
  {
    WithoutKeeps(working, EntryId(symbol, at));
    hide EntryId;
    hide ExitId;
    hide Without;
  }

  lemma SafeLeft(route: Route, n: nat, index: seq<int>, symbol: string, c: Account, b: int)
    requires n > 0 && Current(route, n, index, symbol, b) == None
    requires OneSided(c, SideOf(symbol), LEG_QTY) && On(c.working, SideOf(symbol)) == []
    requires Covered(c, SideOf(symbol)) && ExitsOnly(symbol, c.working)
    ensures Safe(route, n, index, symbol, c, b)
  {
    hide Current;
    hide OneSided;
    hide Covered;
    hide IsExit;
    hide On;
  }

  /** A bar whose commands leave the book alone. */
  lemma RestsSafely(route: Route, closes: Closes, n: nat, index: seq<int>, symbol: string, a: Account, b: nat)
    requires n >= 3 && Priced(route, closes, index) && Increasing(index) && b < |index|
    requires !Trades(route, n, index, symbol, b - 1) && !Trades(route, n, index, symbol, b - 3)
    requires Safe(route, n, index, symbol, a, b - 1)
    ensures Commanded(route, closes, n, index, symbol, a, b) == a
    ensures Safe(route, n, index, symbol, a, b)
  {
    CurrentMoves(route, n, index, symbol, b);
    SafeOwnIds(route, n, index, symbol, a, b - 1);
    hide Safe;
    hide IsStep;
    if 1 <= b <= Steps(index) && IsStep(n, b - 1) {
      EntryCommands(route, closes, n, index, symbol, a, b);
    } else if 3 <= b && IsStep(n, b - 3) {
      ExitCommands(route, closes, n, index, symbol, a, b);
    } else {
      QuietCommands(route, closes, n, index, symbol, a, b);
    }
    hide *;
    SafeMoves(route, n, index, symbol, a, b);
  }

  lemma SafeMoves(route: Route, n: nat, index: seq<int>, symbol: string, a: Account, b: int)
    requires n > 0 && Safe(route, n, index, symbol, a, b - 1)
    requires Current(route, n, index, symbol, b) == Current(route, n, index, symbol, b - 1)
    ensures Safe(route, n, index, symbol, a, b)
  {
    hide OneSided;
    hide Covered;
    hide IsExit;
    hide IsEntry;
    hide On;
  }

  lemma CommandedSafe(route: Route, closes: Closes, n: nat, index: seq<int>, symbol: string, a: Account, b: nat)
    requires n >= 3 && Priced(route, closes, index) && Increasing(index) && b < |index|
    requires Safe(route, n, index, symbol, a, b - 1)
    requires Trades(route, n, index, symbol, b - 1) ==> a.position == 0.0
    ensures Safe(route, n, index, symbol, Commanded(route, closes, n, index, symbol, a, b), b)
  {
    hide Commanded;
    hide Safe;
    hide Trades;
    if Trades(route, n, index, symbol, b - 1) {
      EntersSafely(route, closes, n, index, symbol, a, b);
    } else if Trades(route, n, index, symbol, b - 3) {
      LeavesSafely(route, closes, n, index, symbol, a, b);
    } else {
      RestsSafely(route, closes, n, index, symbol, a, b);
    }
  }

  /** A pass changes quantities only, so an order stays what it was. */
  lemma PassKeepsKinds(symbol: string, a: Account, es: seq<Event>, entered: Option<int>)
    requires AllAllowed(a, es)
    requires forall o :: o in a.working ==> IsExit(symbol, o) || (entered.Some? && IsEntry(symbol, entered.value, o))
    ensures forall o :: o in AfterAll(a, es).working ==>
              IsExit(symbol, o) || (entered.Some? && IsEntry(symbol, entered.value, o))
  {
    PassAddsNothing(a, es, Buy);
    hide AfterAll;
    hide AllAllowed;
    hide On;
    hide EntryId;
    hide ExitId;
    forall o | o in AfterAll(a, es).working
      ensures IsExit(symbol, o) || (entered.Some? && IsEntry(symbol, entered.value, o))
    {
      var p :| p in a.working && p == o.(qty := p.qty);
    }
  }

  lemma SafeInside(route: Route, n: nat, index: seq<int>, symbol: string, c: Account, b: int)
    requires n > 0 && Current(route, n, index, symbol, b).Some?
    requires OneSided(c, SideOf(symbol), LEG_QTY) && |On(c.working, SideOf(symbol))| <= 1
    requires var at := index[Current(route, n, index, symbol, b).value + 1];
             forall o :: o in c.working ==> IsExit(symbol, o) || IsEntry(symbol, at, o)
    ensures Safe(route, n, index, symbol, c, b)
  {
    hide OneSided;
    hide Covered;
    hide IsExit;
    hide IsEntry;
    hide On;
  }

  lemma PassKeepsSafeInside(route: Route, n: nat, index: seq<int>, symbol: string, a: Account, b: int,
                            es: seq<Event>)
    requires n > 0 && Safe(route, n, index, symbol, a, b) && AllAllowed(a, es)
    requires Current(route, n, index, symbol, b).Some?
    ensures Safe(route, n, index, symbol, AfterAll(a, es), b) && Within(symbol, AfterAll(a, es))
  {
    CurrentIsSymbol(route, n, index, symbol, b);
    hide Current;
    hide AfterAll;
    hide AllAllowed;
    hide On;
    hide OneSided;
    hide Covered;
    hide IsExit;
    hide IsEntry;
    hide SideOf;
    var side, at := SideOf(symbol), index[Current(route, n, index, symbol, b).value + 1];
    PassKeepsOneSided(a, es, side, LEG_QTY);
    PassAddsNothing(a, es, side);
    PassKeepsKinds(symbol, a, es, Some(at));
    SafeInside(route, n, index, symbol, AfterAll(a, es), b);
  }

  lemma PassKeepsSafeOutside(route: Route, n: nat, index: seq<int>, symbol: string, a: Account, b: int,
                             es: seq<Event>)
    requires n > 0 && Safe(route, n, index, symbol, a, b) && AllAllowed(a, es)
    requires Current(route, n, index, symbol, b).None?
    ensures Safe(route, n, index, symbol, AfterAll(a, es), b) && Within(symbol, AfterAll(a, es))
    ensures 0.0 <= SideOf(symbol).Signed(AfterAll(a, es).position) <= SideOf(symbol).Signed(a.position)
  {
    hide Current;
    hide AfterAll;
    hide AllAllowed;
    hide On;
    hide OneSided;
    hide Covered;
    hide IsExit;
    hide IsEntry;
    hide SideOf;
    hide ReducingOnly;
    hide ExitsOnly;
    var side, c := SideOf(symbol), AfterAll(a, es);
    SafeOutside(route, n, index, symbol, a, b);
    ExitsReduce(symbol, a.working);
    StartsAbove(a, side);
    PassKeepsOneSided(a, es, side, LEG_QTY);
    PassKeepsCovered(a, es, side);
    StillExits(symbol, a, es);
    ExitsReduce(symbol, c.working);
    NoneOn(c.working, side);
    SafeLeft(route, n, index, symbol, c, b);
  }

  lemma StillExits(symbol: string, a: Account, es: seq<Event>)
    requires AllAllowed(a, es) && ExitsOnly(symbol, a.working)
    ensures ExitsOnly(symbol, AfterAll(a, es).working)
  {
    ExitsReduce(symbol, a.working);
    PassExposure(a, es, Buy);
    PassKeepsKinds(symbol, a, es, None);
    hide IsExit;
    hide IsEntry;
    hide AfterAll;
    hide AllAllowed;
  }

  /** Any pass keeps a safe book safe. */
  lemma PassKeepsSafe(route: Route, n: nat, index: seq<int>, symbol: string, a: Account, b: int, es: seq<Event>)
    requires n > 0 && Safe(route, n, index, symbol, a, b) && AllAllowed(a, es)
    ensures Safe(route, n, index, symbol, AfterAll(a, es), b)
    ensures Within(symbol, AfterAll(a, es))
    ensures Current(route, n, index, symbol, b).None? ==>
              0.0 <= SideOf(symbol).Signed(AfterAll(a, es).position) <= SideOf(symbol).Signed(a.position)
  {
    hide *;
    if Current(route, n, index, symbol, b).None? {
      PassKeepsSafeOutside(route, n, index, symbol, a, b, es);
    } else {
      PassKeepsSafeInside(route, n, index, symbol, a, b, es);
    }
  }

  lemma StartsAbove(a: Account, side: Side)
    requires OneSided(a, side, LEG_QTY)
    ensures 0.0 <= side.Signed(a.position)
  {
  }

  /**
    One bar: if the symbol's position is zero whenever a step enters it, any pass over the bar's commands keeps
    the book safe and, at every moment, within its lot.
   */
  lemma BarKeeps(route: Route, closes: Closes, n: nat, index: seq<int>, symbol: string, a: Account, b: nat,
                 es: seq<Event>)
    requires n >= 3 && Priced(route, closes, index) && Increasing(index) && b < |index|
    requires Safe(route, n, index, symbol, a, b - 1)
    requires Trades(route, n, index, symbol, b - 1) ==> a.position == 0.0
    requires AllAllowed(Commanded(route, closes, n, index, symbol, a, b), es)
    ensures var c := AfterAll(Commanded(route, closes, n, index, symbol, a, b), es);
            Within(symbol, c) && Safe(route, n, index, symbol, c, b)
  {
    hide Commanded;
    hide Safe;
    hide Trades;
    hide AllAllowed;
    hide AfterAll;
    CommandedSafe(route, closes, n, index, symbol, a, b);
    PassKeepsSafe(route, n, index, symbol, Commanded(route, closes, n, index, symbol, a, b), b, es);
  }

  lemma {:induction false} PositionUnmoved(a: Account, symbol: string, cs: seq<Command<string>>)
    ensures ApplyAll(a, symbol, cs).position == a.position
    decreases |cs|
  {
    if cs == [] {
    } else {
      PositionUnmoved(Apply(a, symbol, cs[0]), symbol, cs[1..]);
    }
  }

  /** Whatever book an entry joins, all of it may fill at its limit. */
  lemma FillEntry(route: Route, closes: Closes, n: nat, index: seq<int>, symbol: string, a: Account, b: nat)
    returns (es: seq<Event>)
    requires n >= 3 && Priced(route, closes, index) && Increasing(index) && b < |index|
    requires Trades(route, n, index, symbol, b - 1) && PositivePrices(closes)
    ensures AllAllowed(Commanded(route, closes, n, index, symbol, a, b), es)
    ensures SideOf(symbol).Signed(AfterAll(Commanded(route, closes, n, index, symbol, a, b), es).position)
            == SideOf(symbol).Signed(a.position) + LEG_QTY
  {
    EntryCommands(route, closes, n, index, symbol, a, b);
    var c := Commanded(route, closes, n, index, symbol, a, b);
    hide Commanded;
    hide Legs;
    hide IsStep;
    hide IsSymbol;
    EntryShape(symbol, closes, index, b - 1);
    hide Entry;
    hide EntryId;
    assert closes[symbol][b - 1] > 0.0;
    var e := Fill(|a.working|, LEG_QTY, closes[symbol][b - 1] * (1.0 - 0.002));
    assert Allowed(c, e);
    OneEvent(c, e);
    es := [e];
  }

  /** Entering on top of a position: the whole entry may fill, and then the lot is exceeded. */
  lemma EntryOvershoots(route: Route, closes: Closes, n: nat, index: seq<int>, symbol: string, a: Account,
                        b: nat) returns (es: seq<Event>)
    requires n >= 3 && Priced(route, closes, index) && Increasing(index) && b < |index|
    requires Trades(route, n, index, symbol, b - 1) && PositivePrices(closes)
    requires Safe(route, n, index, symbol, a, b - 1) && a.position != 0.0
    ensures AllAllowed(Commanded(route, closes, n, index, symbol, a, b), es)
    ensures var c := AfterAll(Commanded(route, closes, n, index, symbol, a, b), es);
            SideOf(symbol).Signed(c.position) == SideOf(symbol).Signed(a.position) + LEG_QTY && !Within(symbol, c)
  {
    es := FillEntry(route, closes, n, index, symbol, a, b);
    assert 0.0 <= SideOf(symbol).Signed(a.position);
    hide Safe;
    hide Commanded;
  }

  ghost predicate PositivePrices(closes: Closes) {
    forall leg, k :: leg in closes && 0 <= k < |closes[leg]| ==> closes[leg][k] > 0.0
  }

  // ---------------------------------------------------------------- main results

  /** One bar: the commands, then any pass. */
  ghost predicate Bar(route: Route, closes: Closes, n: nat, index: seq<int>, symbol: string,
                      a: Account, b: nat, es: seq<Event>, next: Account)
    requires n > 0 && Priced(route, closes, index) && b < |index|
  {
    var c := Commanded(route, closes, n, index, symbol, a, b);
    AllAllowed(c, es) && next == AfterAll(c, es)
  }

  /** A run of one symbol's book: `books[b]` is the book before bar `b`. */
  ghost predicate Run(route: Route, closes: Closes, n: nat, index: seq<int>, symbol: string,
                      passes: seq<seq<Event>>, books: seq<Account>)
    requires n > 0 && Priced(route, closes, index)
  {
    && |books| == |passes| + 1 <= |index| + 1
    && books[0] == FLAT
    && forall b :: 0 <= b < |passes| ==> Bar(route, closes, n, index, symbol, books[b], b, passes[b], books[b + 1])
  }

  /** Whenever one of the first `upto` bars enters the symbol, the position before it is zero. */
  ghost predicate ZeroAtEntries(route: Route, n: nat, index: seq<int>, symbol: string, books: seq<Account>,
                                upto: nat)
    requires n > 0 && upto <= |books|
  {
    forall b :: 0 <= b < upto && Trades(route, n, index, symbol, b - 1) ==> books[b].position == 0.0
  }

  /** No pass over bar `b` can take the symbol outside its lot, not even for a moment. */
  ghost predicate AlwaysWithin(route: Route, closes: Closes, n: nat, index: seq<int>, symbol: string, a: Account,
                               b: nat)
    requires n > 0 && Priced(route, closes, index) && b < |index|
  {
    forall es :: AllAllowed(Commanded(route, closes, n, index, symbol, a, b), es) ==>
                   Within(symbol, AfterAll(Commanded(route, closes, n, index, symbol, a, b), es))
  }

  lemma {:induction false} RunIsSafe(route: Route, closes: Closes, n: nat, index: seq<int>, symbol: string,
                                     passes: seq<seq<Event>>, books: seq<Account>, b: nat)
    requires n >= 3 && Priced(route, closes, index) && Increasing(index)
    requires Run(route, closes, n, index, symbol, passes, books) && b < |books|
    requires ZeroAtEntries(route, n, index, symbol, books, b)
    ensures Safe(route, n, index, symbol, books[b], b - 1)
    decreases b
  {
    hide AllAllowed;
    hide Commanded;
    hide AfterAll;
    hide Trades;
    if b == 0 {
      FlatIsSafe(route, n, index, symbol);
    } else {
      hide Safe;
      RunIsSafe(route, closes, n, index, symbol, passes, books, b - 1);
      var k := b - 1;
      assert Bar(route, closes, n, index, symbol, books[k], k, passes[k], books[k + 1]);
      BarKeeps(route, closes, n, index, symbol, books[k], k, passes[k]);
    }
  }

  lemma FlatIsSafe(route: Route, n: nat, index: seq<int>, symbol: string)
    requires n > 0
    ensures Safe(route, n, index, symbol, FLAT, -1)
  {
  }

  /**
    In every run in which the symbol's position is zero whenever a step enters it, and at every moment of every
    bar, the position lies between 0 and its signed lot and at most one entry works.
   */
  lemma LadderStaysWithin(route: Route, closes: Closes, n: nat, index: seq<int>, symbol: string,
                          passes: seq<seq<Event>>, books: seq<Account>, b: nat, es: seq<Event>)
    requires n >= 3 && Priced(route, closes, index) && Increasing(index)
    requires Run(route, closes, n, index, symbol, passes, books) && b < |books| && b < |index|
    requires ZeroAtEntries(route, n, index, symbol, books, b + 1)
    requires AllAllowed(Commanded(route, closes, n, index, symbol, books[b], b), es)
    ensures var a := AfterAll(Commanded(route, closes, n, index, symbol, books[b], b), es);
            0.0 <= SideOf(symbol).Signed(a.position) <= LEG_QTY && |On(a.working, SideOf(symbol))| <= 1
  {
    RunIsSafe(route, closes, n, index, symbol, passes, books, b);
    hide Run;
    hide Commanded;
    hide Safe;
    BarKeeps(route, closes, n, index, symbol, books[b], b, es);
  }

  /** The condition is exact: a run is within the lot at every moment if and only if it enters on zero positions. */
  lemma BoundExactly(route: Route, closes: Closes, n: nat, index: seq<int>, symbol: string,
                     passes: seq<seq<Event>>, books: seq<Account>)
    requires n >= 3 && Priced(route, closes, index) && Increasing(index) && PositivePrices(closes)
    requires Run(route, closes, n, index, symbol, passes, books)
    ensures (forall b :: 0 <= b < |books| && b < |index| ==>
               AlwaysWithin(route, closes, n, index, symbol, books[b], b))
            <==> ZeroAtEntries(route, n, index, symbol, books, |books|)
  {
    hide Run;
    hide Commanded;
    hide Within;
    hide AllAllowed;
    hide AfterAll;
    hide IsStep;
    hide Legs;
    if ZeroAtEntries(route, n, index, symbol, books, |books|) {
      forall b | 0 <= b < |books| && b < |index|
        ensures AlwaysWithin(route, closes, n, index, symbol, books[b], b)
      {
        forall es | AllAllowed(Commanded(route, closes, n, index, symbol, books[b], b), es)
          ensures Within(symbol, AfterAll(Commanded(route, closes, n, index, symbol, books[b], b), es))
        {
          RunIsSafe(route, closes, n, index, symbol, passes, books, b);
          BarKeeps(route, closes, n, index, symbol, books[b], b, es);
        }
      }
    }
    if forall b :: 0 <= b < |books| && b < |index| ==> AlwaysWithin(route, closes, n, index, symbol, books[b], b) {
      WithinMeansZero(route, closes, n, index, symbol, passes, books, |books|);
    }
  }

  lemma {:induction false} WithinMeansZero(route: Route, closes: Closes, n: nat, index: seq<int>, symbol: string,
                                           passes: seq<seq<Event>>, books: seq<Account>, upto: nat)
    requires n >= 3 && Priced(route, closes, index) && Increasing(index) && PositivePrices(closes)
    requires Run(route, closes, n, index, symbol, passes, books) && upto <= |books|
    requires forall b :: 0 <= b < |books| && b < |index| ==>
               AlwaysWithin(route, closes, n, index, symbol, books[b], b)
    ensures ZeroAtEntries(route, n, index, symbol, books, upto)
    decreases upto
  {
    hide Run;
    hide Commanded;
    hide Within;
    hide AllAllowed;
    hide AfterAll;
    hide IsStep;
    hide Legs;
    if upto == 0 {
    } else {
      var b := upto - 1;
      WithinMeansZero(route, closes, n, index, symbol, passes, books, b);
      if Trades(route, n, index, symbol, b - 1) && books[b].position != 0.0 {
        RunIsSafe(route, closes, n, index, symbol, passes, books, b);
        assert AlwaysWithin(route, closes, n, index, symbol, books[b], b);
        var es := EntryOvershoots(route, closes, n, index, symbol, books[b], b);
      }
    }
  }

  /** Outside a step and with a zero position, a bar without an entry leaves the position at zero. */
  lemma ZeroRests(route: Route, closes: Closes, n: nat, index: seq<int>, symbol: string, a: Account, b: nat,
                  es: seq<Event>)
    requires n >= 3 && Priced(route, closes, index) && Increasing(index) && b < |index|
    requires Safe(route, n, index, symbol, a, b - 1) && a.position == 0.0
    requires Current(route, n, index, symbol, b).None?
    requires AllAllowed(Commanded(route, closes, n, index, symbol, a, b), es)
    ensures AfterAll(Commanded(route, closes, n, index, symbol, a, b), es).position == 0.0
  {
    var c := Commanded(route, closes, n, index, symbol, a, b);
    PositionUnmoved(a, symbol, At(FullTape(route, closes, n, index), index[b]));
    assert c.position == 0.0;
    hide *;
    CommandedSafe(route, closes, n, index, symbol, a, b);
    PassKeepsSafe(route, n, index, symbol, c, b, es);
    NoneBetween(SideOf(symbol), c, AfterAll(c, es));
  }

  lemma NoneBetween(side: Side, c: Account, d: Account)
    requires c.position == 0.0 && 0.0 <= side.Signed(d.position) <= side.Signed(c.position)
    ensures d.position == 0.0
  {
  }

  /**
    Outside a step no entry works and the position is covered by a working exit. So the symbol is flat as soon as
    its market orders have completed, and stays at zero until the next entry.
   */
  lemma LadderFlatAfterExit(route: Route, closes: Closes, n: nat, index: seq<int>, symbol: string,
                            passes: seq<seq<Event>>, books: seq<Account>, b: nat)
    requires n >= 3 && Priced(route, closes, index) && Increasing(index)
    requires Run(route, closes, n, index, symbol, passes, books) && b + 1 < |books|
    requires ZeroAtEntries(route, n, index, symbol, books, b + 1) && Current(route, n, index, symbol, b).None?
    ensures var a := books[b + 1];
            && On(a.working, SideOf(symbol)) == []
            && Covered(a, SideOf(symbol))
            && (MarketsDone(a) ==> a == FLAT)
    ensures books[b + 1].position == 0.0 && b + 2 < |books| && Current(route, n, index, symbol, b + 1).None? ==>
              books[b + 2].position == 0.0
  {
    hide Safe;
    hide Commanded;
    hide Current;
    hide Trades;
    hide AllAllowed;
    hide AfterAll;
    RunIsSafe(route, closes, n, index, symbol, passes, books, b + 1);
    SafeOutside(route, n, index, symbol, books[b + 1], b);
    if b + 2 < |books| && Current(route, n, index, symbol, b + 1).None? && books[b + 1].position == 0.0 {
      var k := b + 1;
      assert Bar(route, closes, n, index, symbol, books[k], k, passes[k], books[k + 1]);
      ZeroRests(route, closes, n, index, symbol, books[k], k, passes[k]);
    }
  }

  // ---------------------------------------------------------------- before the run

  /** At most one step of the tape trades the symbol. */
  ghost predicate TradedOnce(route: Route, n: nat, index: seq<int>, symbol: string)
    requires n > 0
  {
    forall i, j :: Trades(route, n, index, symbol, i) && Trades(route, n, index, symbol, j) ==> i == j
  }

  /** Every moment of the run is within the lot. */
  ghost predicate RunWithin(route: Route, closes: Closes, n: nat, index: seq<int>, symbol: string,
                            books: seq<Account>)
    requires n > 0 && Priced(route, closes, index)
  {
    forall b :: 0 <= b < |books| && b < |index| ==> AlwaysWithin(route, closes, n, index, symbol, books[b], b)
  }

  /** Until the only step that trades the symbol enters it, the position stays at zero. */
  lemma {:induction false} ZeroBeforeEntry(route: Route, closes: Closes, n: nat, index: seq<int>, symbol: string,
                                           passes: seq<seq<Event>>, books: seq<Account>, i: int, b: nat)
    requires n >= 3 && Priced(route, closes, index) && Increasing(index)
    requires TradedOnce(route, n, index, symbol) && Trades(route, n, index, symbol, i)
    requires Run(route, closes, n, index, symbol, passes, books) && b < |books| && b <= i + 1
    ensures books[b].position == 0.0 && ZeroAtEntries(route, n, index, symbol, books, b)
    decreases b
  {
    hide Trades;
    hide Safe;
    hide Commanded;
    hide AllAllowed;
    hide AfterAll;
    if b == 0 {
    } else {
      var k := b - 1;
      ZeroBeforeEntry(route, closes, n, index, symbol, passes, books, i, k);
      RunIsSafe(route, closes, n, index, symbol, passes, books, k);
      assert !Trades(route, n, index, symbol, k - 1) && !Trades(route, n, index, symbol, k - 2);
      assert Bar(route, closes, n, index, symbol, books[k], k, passes[k], books[k + 1]);
      ZeroRests(route, closes, n, index, symbol, books[k], k, passes[k]);
    }
  }

  lemma TradedOnceSuffices(route: Route, closes: Closes, n: nat, index: seq<int>, symbol: string,
                           passes: seq<seq<Event>>, books: seq<Account>)
    requires n >= 3 && Priced(route, closes, index) && Increasing(index) && TradedOnce(route, n, index, symbol)
    requires Run(route, closes, n, index, symbol, passes, books)
    ensures ZeroAtEntries(route, n, index, symbol, books, |books|)
  {
    hide Run;
    hide Trades;
    forall b | 0 <= b < |books| && Trades(route, n, index, symbol, b - 1) ensures books[b].position == 0.0 {
      ZeroBeforeEntry(route, closes, n, index, symbol, passes, books, b - 1, b);
    }
  }

  /** A run up to bar `b` in which nothing fills but the entry of bar `at`, at once and completely. */
  lemma {:induction false} LazyRun(route: Route, closes: Closes, n: nat, index: seq<int>, symbol: string, at: nat,
                                   b: nat) returns (passes: seq<seq<Event>>, books: seq<Account>)
    requires n >= 3 && Priced(route, closes, index) && Increasing(index) && PositivePrices(closes)
    requires Trades(route, n, index, symbol, at - 1) && b <= |index|
    ensures Run(route, closes, n, index, symbol, passes, books) && |books| == b + 1
    ensures SideOf(symbol).Signed(books[b].position) == if at < b then LEG_QTY else 0.0
    decreases b
  {
    hide Trades;
    hide Commanded;
    hide AllAllowed;
    hide AfterAll;
    if b == 0 {
      passes, books := [], [FLAT];
    } else {
      var k := b - 1;
      passes, books := LazyRun(route, closes, n, index, symbol, at, k);
      var a := books[k];
      var es, next := LazyBar(route, closes, n, index, symbol, at, a, k);
      hide Bar;
      ExtendRun(route, closes, n, index, symbol, passes, books, es, next);
      passes, books := passes + [es], books + [next];
    }
  }

  lemma ExtendRun(route: Route, closes: Closes, n: nat, index: seq<int>, symbol: string,
                  passes: seq<seq<Event>>, books: seq<Account>, es: seq<Event>, next: Account)
    requires n > 0 && Priced(route, closes, index)
    requires Run(route, closes, n, index, symbol, passes, books) && |passes| < |index|
    requires Bar(route, closes, n, index, symbol, books[|passes|], |passes|, es, next)
    ensures Run(route, closes, n, index, symbol, passes + [es], books + [next])
  {
    hide Bar;
  }

  lemma LazyBar(route: Route, closes: Closes, n: nat, index: seq<int>, symbol: string, at: nat, a: Account, b: nat)
    returns (es: seq<Event>, next: Account)
    requires n >= 3 && Priced(route, closes, index) && Increasing(index) && PositivePrices(closes)
    requires Trades(route, n, index, symbol, at - 1) && b < |index|
    ensures Bar(route, closes, n, index, symbol, a, b, es, next)
    ensures SideOf(symbol).Signed(next.position)
            == SideOf(symbol).Signed(a.position) + if b == at then LEG_QTY else 0.0
  {
    if b == at {
      es := FillEntry(route, closes, n, index, symbol, a, b);
      next := AfterAll(Commanded(route, closes, n, index, symbol, a, b), es);
    } else {
      var c := Commanded(route, closes, n, index, symbol, a, b);
      es, next := [], c;
      PositionUnmoved(a, symbol, At(FullTape(route, closes, n, index), index[b]));
      EmptyPass(c);
    }
  }

  /**
    Before any run: the ladder is sure to stay within the symbol's lot, whatever fills, if and only if at most one
    step of its tape trades the symbol.
   */
  lemma SurelyWithinExactly(route: Route, closes: Closes, n: nat, index: seq<int>, symbol: string)
    requires n >= 3 && Priced(route, closes, index) && Increasing(index) && PositivePrices(closes)
    ensures (forall passes, books :: Run(route, closes, n, index, symbol, passes, books) ==>
               RunWithin(route, closes, n, index, symbol, books))
            <==> TradedOnce(route, n, index, symbol)
  {
    hide Run;
    hide Trades;
    hide AlwaysWithin;
    if TradedOnce(route, n, index, symbol) {
      forall passes, books | Run(route, closes, n, index, symbol, passes, books)
        ensures RunWithin(route, closes, n, index, symbol, books)
      {
        TradedOnceSuffices(route, closes, n, index, symbol, passes, books);
        BoundExactly(route, closes, n, index, symbol, passes, books);
      }
    } else {
      var i, j :| Trades(route, n, index, symbol, i) && Trades(route, n, index, symbol, j) && i < j;
      var passes, books := TwoEntriesEscape(route, closes, n, index, symbol, i, j);
    }
  }

  lemma TwoEntriesEscape(route: Route, closes: Closes, n: nat, index: seq<int>, symbol: string, i: int, j: int)
    returns (passes: seq<seq<Event>>, books: seq<Account>)
    requires n >= 3 && Priced(route, closes, index) && Increasing(index) && PositivePrices(closes)
    requires Trades(route, n, index, symbol, i) && Trades(route, n, index, symbol, j) && i < j
    ensures Run(route, closes, n, index, symbol, passes, books)
    ensures !RunWithin(route, closes, n, index, symbol, books)
  {
    assert 0 <= i && j + 1 < |index|;
    hide Trades;
    hide AlwaysWithin;
    hide Run;
    passes, books := LazyRun(route, closes, n, index, symbol, i + 1, j + 1);
    BoundExactly(route, closes, n, index, symbol, passes, books);
    assert books[j + 1].position != 0.0;
    assert !ZeroAtEntries(route, n, index, symbol, books, |books|) by {
      assert Trades(route, n, index, symbol, j + 1 - 1);
    }
  }

  /** If outside steps no market order is left working at a close, every entry meets a flat book. */
  lemma {:induction false} CompleteExitsSuffice(route: Route, closes: Closes, n: nat, index: seq<int>,
                                                symbol: string, passes: seq<seq<Event>>, books: seq<Account>,
                                                upto: nat)
    requires n >= 3 && Priced(route, closes, index) && Increasing(index)
    requires Run(route, closes, n, index, symbol, passes, books) && upto <= |books|
    requires forall b :: 0 <= b < |books| && Current(route, n, index, symbol, b - 1).None? ==>
               MarketsDone(books[b])
    ensures FlatAtEntries(route, n, index, symbol, books, upto)
    ensures ZeroAtEntries(route, n, index, symbol, books, upto)
    decreases upto
  {
    hide Run;
    hide IsStep;
    hide Legs;
    if upto == 0 {
    } else {
      var b := upto - 1;
      CompleteExitsSuffice(route, closes, n, index, symbol, passes, books, b);
      if Trades(route, n, index, symbol, b - 1) {
        OneStep(n, b - 1);
        RunIsSafe(route, closes, n, index, symbol, passes, books, b);
        SafeOutside(route, n, index, symbol, books[b], b - 1);
      }
    }
  }

  // ---------------------------------------------------------------- one order at a time

  /** Whenever one of the first `upto` bars enters the symbol, its book before is flat. */
  ghost predicate FlatAtEntries(route: Route, n: nat, index: seq<int>, symbol: string, books: seq<Account>,
                                upto: nat)
    requires n > 0 && upto <= |books|
  {
    forall b :: 0 <= b < upto && Trades(route, n, index, symbol, b - 1) ==> books[b] == FLAT
  }

  /** At most one order, and within a step only the entry. */
  ghost predicate Single(route: Route, n: nat, index: seq<int>, symbol: string, a: Account, b: int)
    requires n > 0
  {
    && |a.working| <= 1
    && (Current(route, n, index, symbol, b).Some? ==> forall o :: o in a.working ==> o.side == SideOf(symbol))
  }

  lemma CommandedSingle(route: Route, closes: Closes, n: nat, index: seq<int>, symbol: string, a: Account, b: nat)
    requires n >= 3 && Priced(route, closes, index) && Increasing(index) && b < |index|
    requires Safe(route, n, index, symbol, a, b - 1) && Single(route, n, index, symbol, a, b - 1)
    requires Trades(route, n, index, symbol, b - 1) ==> a == FLAT
    ensures Single(route, n, index, symbol, Commanded(route, closes, n, index, symbol, a, b), b)
  {
    CurrentMoves(route, n, index, symbol, b);
    if Trades(route, n, index, symbol, b - 1) {
      EntryCommands(route, closes, n, index, symbol, a, b);
      EntryShape(symbol, closes, index, b - 1);
      assert symbol in closes;
    } else if Trades(route, n, index, symbol, b - 3) {
      SafeOwnIds(route, n, index, symbol, a, b - 1);
      ExitCommands(route, closes, n, index, symbol, a, b);
      EntriesOnly(route, n, index, symbol, a, b);
    } else {
      RestsSafely(route, closes, n, index, symbol, a, b);
    }
    hide IsStep;
    hide Legs;
    hide IsSymbol;
    hide Commanded;
    hide Entry;
    hide Exit;
    hide EntryId;
    hide Without;
    hide Current;
    hide Safe;
  }

  /** A book that holds nothing but the current entry is emptied by its cancel. */
  lemma EntriesOnly(route: Route, n: nat, index: seq<int>, symbol: string, a: Account, b: nat)
    requires n > 0 && 3 <= b < |index| && Current(route, n, index, symbol, b - 1) == Some(b - 3)
    requires Safe(route, n, index, symbol, a, b - 1) && Single(route, n, index, symbol, a, b - 1)
    ensures Without(a.working, EntryId(symbol, index[b - 2])) == []
  {
    hide Current;
    hide EntryId;
    hide ExitId;
    hide OneSided;
    hide On;
    hide Covered;
    if a.working != [] {
      assert a.working[0] in a.working;
      assert a.working[1..] == [];
    }
  }

  lemma PassKeepsSingle(route: Route, n: nat, index: seq<int>, symbol: string, a: Account, b: int, es: seq<Event>)
    requires n > 0 && Single(route, n, index, symbol, a, b) && AllAllowed(a, es)
    ensures Single(route, n, index, symbol, AfterAll(a, es), b)
  {
    PassAddsNothing(a, es, SideOf(symbol));
    hide Current;
    hide AllAllowed;
    hide AfterAll;
  }

  lemma {:induction false} RunIsSingle(route: Route, closes: Closes, n: nat, index: seq<int>, symbol: string,
                                       passes: seq<seq<Event>>, books: seq<Account>, b: nat)
    requires n >= 3 && Priced(route, closes, index) && Increasing(index)
    requires Run(route, closes, n, index, symbol, passes, books) && b < |books|
    requires FlatAtEntries(route, n, index, symbol, books, b)
    ensures Single(route, n, index, symbol, books[b], b - 1) && Safe(route, n, index, symbol, books[b], b - 1)
    decreases b
  {
    hide AllAllowed;
    hide Commanded;
    hide AfterAll;
    hide Trades;
    RunIsSafe(route, closes, n, index, symbol, passes, books, b);
    hide Safe;
    if b == 0 {
    } else {
      hide Single;
      var k := b - 1;
      RunIsSingle(route, closes, n, index, symbol, passes, books, k);
      assert Bar(route, closes, n, index, symbol, books[k], k, passes[k], books[k + 1]);
      CommandedSingle(route, closes, n, index, symbol, books[k], k);
      PassKeepsSingle(route, n, index, symbol, Commanded(route, closes, n, index, symbol, books[k], k), k, passes[k]);
    }
  }

  /** In every run that enters on flat books, at most one order of a symbol works at any moment. */
  lemma OneOrderAtATime(route: Route, closes: Closes, n: nat, index: seq<int>, symbol: string,
                        passes: seq<seq<Event>>, books: seq<Account>, b: nat, es: seq<Event>)
    requires n >= 3 && Priced(route, closes, index) && Increasing(index)
    requires Run(route, closes, n, index, symbol, passes, books) && b < |books| && b < |index|
    requires FlatAtEntries(route, n, index, symbol, books, b + 1)
    requires AllAllowed(Commanded(route, closes, n, index, symbol, books[b], b), es)
    ensures |AfterAll(Commanded(route, closes, n, index, symbol, books[b], b), es).working| <= 1
  {
    RunIsSingle(route, closes, n, index, symbol, passes, books, b);
    hide Run;
    hide Commanded;
    hide Safe;
    CommandedSingle(route, closes, n, index, symbol, books[b], b);
    PassKeepsSingle(route, n, index, symbol, Commanded(route, closes, n, index, symbol, books[b], b), b, es);
  }

  // ---------------------------------------------------------------- a run that exceeds the lot

  /** Seven bars of one symbol at price 1, every three of them a step: entries at bars 1 and 4, an exit at bar 3. */
  ghost predicate SevenBars(closes: Closes, index: seq<int>) {
    && Priced(OrderCommands, closes, index) && Increasing(index) && |index| == 7
    && SINGLE in closes && |closes[SINGLE]| == 7 && closes[SINGLE][0] == closes[SINGLE][3] == 1.0
  }

  lemma SevenBarSteps(closes: Closes, index: seq<int>)
    requires SevenBars(closes, index)
    ensures IsStep(3, 0) && !IsStep(3, 1) && !IsStep(3, 2) && IsStep(3, 3)
    ensures Steps(index) == 4 && LegOf(SINGLE) == (SINGLE, Buy) && SideOf(SINGLE) == Buy
    ensures Trades(OrderCommands, 3, index, SINGLE, 0) && Trades(OrderCommands, 3, index, SINGLE, 3)
  {
    assert |PERP| == 4 && |SINGLE| == 1;
    assert LegOf(SINGLE) == (SINGLE, Buy);
  }

  /** Whatever book bar 1 or bar 4 meets receives an entry of one lot at 0.998. */
  lemma SevenBarEntry(closes: Closes, index: seq<int>, a: Account, b: nat) returns (e: Order)
    requires SevenBars(closes, index) && (b == 1 || b == 4)
    ensures Commanded(OrderCommands, closes, 3, index, SINGLE, a, b) == a.(working := a.working + [e])
    ensures e.side == Buy && e.qty == LEG_QTY && !e.reduceOnly && e.pricing == Limit(0.998)
  {
    SevenBarSteps(closes, index);
    EntryCommands(OrderCommands, closes, 3, index, SINGLE, a, b);
    EntryShape(SINGLE, closes, index, b - 1);
    e := Entry(LegOf(SINGLE), closes, index, b - 1);
    hide *;
  }

  /** An empty book receives the exit at bar 3. */
  lemma SevenBarExit(closes: Closes, index: seq<int>, position: real) returns (x: Order)
    requires SevenBars(closes, index)
    ensures Commanded(OrderCommands, closes, 3, index, SINGLE, Account(position, []), 3) == Account(position, [x])
    ensures x.side == Sell && x.qty == LEG_QTY && x.reduceOnly && x.pricing.Market?
  {
    SevenBarSteps(closes, index);
    ExitCommands(OrderCommands, closes, 3, index, SINGLE, Account(position, []), 3);
    ExitShape(SINGLE, index, 0);
    x := Exit(LegOf(SINGLE), index, 0);
    assert Exited(Account(position, []), EntryId(SINGLE, index[1]), x) == Account(position, [x]);
    hide Commanded;
  }

  /** Bars 0 and 2 command nothing. */
  lemma SevenBarRest(closes: Closes, index: seq<int>, a: Account, b: nat)
    requires SevenBars(closes, index) && (b == 0 || b == 2)
    ensures Commanded(OrderCommands, closes, 3, index, SINGLE, a, b) == a
  {
    SevenBarSteps(closes, index);
    hide IsStep;
    QuietCommands(OrderCommands, closes, 3, index, SINGLE, a, b);
  }

  /**
    A permitted run that exceeds the lot: the exit at bar 3 fills only 0.1 of 0.5, the residual exit keeps
    working, and the entry at bar 4 fills on top of the remaining 0.4.
   */
  lemma PartialExitOvershoots(closes: Closes, index: seq<int>)
    returns (passes: seq<seq<Event>>, books: seq<Account>, es: seq<Event>)
    requires SevenBars(closes, index)
    ensures |books| == 5 && Run(OrderCommands, closes, 3, index, SINGLE, passes, books)
    ensures AllAllowed(Commanded(OrderCommands, closes, 3, index, SINGLE, books[4], 4), es)
    ensures AfterAll(Commanded(OrderCommands, closes, 3, index, SINGLE, books[4], 4), es).position == 0.9 > LEG_QTY
  {
    hide SevenBars;
    hide Commanded;
    hide AllAllowed;
    hide AfterAll;
    hide Run;
    var entry := SevenBarEntry(closes, index, FLAT, 1);
    var exit := SevenBarExit(closes, index, 0.5);
    var held, left := Account(0.5, []), Account(0.4, [exit.(qty := 0.4)]);
    var again := SevenBarEntry(closes, index, left, 4);
    SevenBarRest(closes, index, FLAT, 0);
    SevenBarRest(closes, index, held, 2);
    passes := [[], [Fill(0, 0.5, 0.5)], [], [Fill(0, 0.1, 1.0)]];
    books, es := [FLAT, FLAT, held, held, left], [Fill(1, 0.5, 0.5)];
    EntryFills(FLAT, entry, 0.5);
    PartialExit(0.5, exit);
    EntryFills(left, again, 0.5);
    EmptyPass(FLAT);
    EmptyPass(held);
    BarIs(closes, index, FLAT, 0, [], FLAT);
    BarIs(closes, index, FLAT, 1, [Fill(0, 0.5, 0.5)], held);
    BarIs(closes, index, held, 2, [], held);
    BarIs(closes, index, held, 3, [Fill(0, 0.1, 1.0)], left);
    SevenBarRun(closes, index, passes, books);
  }

  /** The whole entry fills at 0.5. */
  lemma EntryFills(a: Account, e: Order, price: real)
    requires e.side == Buy && e.qty == LEG_QTY && !e.reduceOnly && e.pricing == Limit(0.998) && 0.0 < price <= 0.998
    ensures var c, es := a.(working := a.working + [e]), [Fill(|a.working|, 0.5, price)];
            AllAllowed(c, es) && AfterAll(c, es) == Account(a.position + 0.5, a.working)
  {
    var c, f := a.(working := a.working + [e]), Fill(|a.working|, 0.5, price);
    OneEvent(c, f);
    assert Removed(c.working, |a.working|) == a.working;
  }

  lemma PartialExit(position: real, x: Order)
    requires position == 0.5 && x.side == Sell && x.qty == LEG_QTY && x.reduceOnly && x.pricing.Market?
    ensures var c, es := Account(position, [x]), [Fill(0, 0.1, 1.0)];
            AllAllowed(c, es) && AfterAll(c, es) == Account(0.4, [x.(qty := 0.4)])
  {
    var c, f := Account(position, [x]), Fill(0, 0.1, 1.0);
    OneEvent(c, f);
    assert c.working[0 := x.(qty := 0.4)] == [x.(qty := 0.4)];
  }

  lemma BarIs(closes: Closes, index: seq<int>, a: Account, b: nat, es: seq<Event>, next: Account)
    requires SevenBars(closes, index) && b < 7
    requires AllAllowed(Commanded(OrderCommands, closes, 3, index, SINGLE, a, b), es)
    requires AfterAll(Commanded(OrderCommands, closes, 3, index, SINGLE, a, b), es) == next
    ensures Bar(OrderCommands, closes, 3, index, SINGLE, a, b, es, next)
  {
  }

  lemma SevenBarRun(closes: Closes, index: seq<int>, passes: seq<seq<Event>>, books: seq<Account>)
    requires SevenBars(closes, index) && |passes| == 4 && |books| == 5 && books[0] == FLAT
    requires Bar(OrderCommands, closes, 3, index, SINGLE, books[0], 0, passes[0], books[1])
    requires Bar(OrderCommands, closes, 3, index, SINGLE, books[1], 1, passes[1], books[2])
    requires Bar(OrderCommands, closes, 3, index, SINGLE, books[2], 2, passes[2], books[3])
    requires Bar(OrderCommands, closes, 3, index, SINGLE, books[3], 3, passes[3], books[4])
    ensures Run(OrderCommands, closes, 3, index, SINGLE, passes, books)
  {
    hide Bar;
  }

  /** Such bars exist. */
  lemma SevenBarsExist()
    ensures SevenBars(map[SINGLE := [1.0, 1.0, 1.0, 1.0, 1.0, 1.0, 1.0]], [0, 1, 2, 3, 4, 5, 6])
  {
  }
}
