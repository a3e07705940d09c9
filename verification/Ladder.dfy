/**
  The limit, cancel and reduce-only ladder of examples/wfo_meta_execution.py: every `n` bars a limit
  entry two bars before its exit, the exit being a cancel of the entry and a reduce-only market order.
  The delivery route pairs a dated contract with the perpetual one.
*/
module Ladder {
  import opened Shared
  import opened Decimal
  import opened Matching

  datatype Route = OrderCommands | DeliveryArbitrage

  const PERP := "PERP"
  const QUARTER_1 := "QUARTER-1"
  const QUARTER_2 := "QUARTER-2"
  const SINGLE := "X"

  /** Timestamps are nanoseconds since the epoch, UTC. */
  const DAY: int := 86_400_000_000_000
  /** 2021-06-27: later entries use the second contract. */
  const ROLL: int := 1_624_752_000_000_000_000
  /** 2021-06-29 and 2022-12-30: the contracts' flatten timestamps. */
  const FLATTEN_1: int := 1_624_924_800_000_000_000
  const FLATTEN_2: int := 1_672_358_400_000_000_000

  /** The timestamps by the calendar: days since 1970, of whose years until 2021 thirteen are leap years. */
  lemma CalendarDays()
    ensures DAY == 24 * 60 * 60 * 1_000_000_000
    ensures ROLL == (51 * 365 + 13 + 31 + 28 + 31 + 30 + 31 + 26) * DAY
    ensures FLATTEN_1 == ROLL + 2 * DAY
    ensures FLATTEN_2 == (53 * 365 + 13 - 2) * DAY
  {
  }

  const LEG_QTY: real := 0.5

  /** Close prices per symbol, aligned with the index. */
  type Closes = map<string, seq<real>>

  function Legs(route: Route, entry: int): seq<(string, Side)> {
    match route
    case OrderCommands => [(SINGLE, Buy)]
    case DeliveryArbitrage => [(if entry < ROLL then QUARTER_1 else QUARTER_2, Buy), (PERP, Sell)]
  }

  /** The symbols a route trades. */
  predicate IsSymbol(route: Route, leg: string) {
    match route
    case OrderCommands => leg == SINGLE
    case DeliveryArbitrage => leg == PERP || leg == QUARTER_1 || leg == QUARTER_2
  }

  /** Every symbol of the route has a close per bar. */
  ghost predicate Priced(route: Route, closes: Closes, index: seq<int>) {
    forall leg :: IsSymbol(route, leg) ==> leg in closes && |closes[leg]| == |index|
  }

  lemma LegsKnown(route: Route, entry: int)
    ensures var legs := Legs(route, entry);
            && 1 <= |legs| <= 2
            && (forall k :: 0 <= k < |legs| ==> legs[k] in legs && IsSymbol(route, legs[k].0))
            && (|legs| == 2 ==> legs[0].0 != legs[1].0)
  {
    assert |QUARTER_1| == 9 && |QUARTER_2| == 9 && |PERP| == 4;
  }

  function EntryId(leg: string, at: int): string {
    "entry:" + leg + ":" + Text(at)
  }

  function ExitId(leg: string, at: int): string {
    "exit:" + leg + ":" + Text(at)
  }

  function EntryOrder(leg: (string, Side), at: int, close: real): Order {
    Order(EntryId(leg.0, at), leg.1, Limit(close * (1.0 - 0.002)), LEG_QTY, false)
  }

  function ExitOrder(leg: (string, Side), at: int): Order {
    Order(ExitId(leg.0, at), leg.1.Opposite(), Market, LEG_QTY, true)
  }

  /** The three commands of one leg of the step at bar `i`. */
  function LegCommands(leg: (string, Side), closes: Closes, index: seq<int>, i: nat): seq<Stamped<string>>
    requires i + 3 < |index| && leg.0 in closes && |closes[leg.0]| == |index|
  {
    [Stamped(index[i + 1], Place(leg.0, EntryOrder(leg, index[i + 1], closes[leg.0][i]))),
     Stamped(index[i + 3], Cancel(EntryId(leg.0, index[i + 1]))),
     Stamped(index[i + 3], Place(leg.0, ExitOrder(leg, index[i + 3])))]
  }

  function StepCommands(route: Route, closes: Closes, index: seq<int>, i: nat): seq<Stamped<string>>
    requires i + 3 < |index| && Priced(route, closes, index)
  {
    var legs := Legs(route, index[i + 1]);
    LegCommands(legs[0], closes, index, i)
    + if |legs| == 2 then LegCommands(legs[1], closes, index, i) else []
  }

  predicate IsStep(n: nat, i: int)
    requires n > 0
  {
    i % n == 0
  }

  /** All commands of the steps before `upto`, in emission order. */
  function Tape(route: Route, closes: Closes, n: nat, index: seq<int>, upto: nat): seq<Stamped<string>>
    requires n > 0 && Priced(route, closes, index)
    requires upto == 0 || upto + 3 <= |index|
  {
    if upto == 0 then []
    else Tape(route, closes, n, index, upto - 1)
         + if IsStep(n, upto - 1) then StepCommands(route, closes, index, upto - 1) else []
  }

  function Steps(index: seq<int>): nat {
    if |index| >= 3 then |index| - 3 else 0
  }

  function FullTape(route: Route, closes: Closes, n: nat, index: seq<int>): seq<Stamped<string>>
    requires n > 0 && Priced(route, closes, index)
  {
    Tape(route, closes, n, index, Steps(index))
  }

  lemma {:induction false} NoStepBetween(route: Route, closes: Closes, n: nat, index: seq<int>, i: nat, j: nat)
    requires n > 0 && Priced(route, closes, index) && IsStep(n, i) && i < j <= i + n && j + 3 <= |index|
    ensures Tape(route, closes, n, index, j)
            == Tape(route, closes, n, index, i) + StepCommands(route, closes, index, i)
    decreases j - i
  {
    hide StepCommands;
    hide IsStep;
    hide Priced;
    if j > i + 1 {
      NoStepBetween(route, closes, n, index, i, j - 1);
      Between(n, i, j - 1);
    }
  }

  lemma Between(n: nat, i: nat, j: nat)
    requires n > 0 && IsStep(n, i) && i < j < i + n
    ensures !IsStep(n, j)
  {
    var q := i / n;
    assert i == q * n;
    assert j == q * n + (j - i);
    if IsStep(n, j) {
      var r := j / n;
      assert j == r * n;
      Multiples(n, r - q, j - i);
    }
  }

  lemma Multiples(n: nat, k: int, d: nat)
    requires 0 < d < n
    ensures k * n != d
  {
    if k >= 1 {
      assert k * n >= n;
    } else {
      assert k * n <= 0;
    }
  }

  method Generate(route: Route, closes: Closes, n: nat, index: seq<int>) returns (commands: seq<Stamped<string>>)
    requires n > 0 && Priced(route, closes, index)
    ensures commands == FullTape(route, closes, n, index)
  {
    hide Legs;
    hide Text;
    hide IsStep;
    commands := [];
    var i := 0;
    FirstStep(n);
    while i < |index| - 3
      invariant IsStep(n, i) && 0 <= i
      invariant commands == Tape(route, closes, n, index, if i <= Steps(index) then i else Steps(index))
    {
      var entry, exitAt := index[i + 1], index[i + 3];
      var legs := Legs(route, entry);
      LegsKnown(route, entry);
      hide Legs;
      hide IsSymbol;
      hide Text;
      hide Tape;
      var start := commands;
      for k := 0 to |legs|
        invariant commands == start
                  + (if k >= 1 then LegCommands(legs[0], closes, index, i) else [])
                  + (if k >= 2 then LegCommands(legs[1], closes, index, i) else [])
      {
        var (leg, entrySide) := legs[k];
        ghost var before := commands;
        var ident := "entry:" + leg + ":" + Text(entry);
        commands := commands + [Stamped(entry, Place(leg,
          Order(ident, entrySide, Limit(closes[leg][i] * (1.0 - 0.002)), 0.5, false)))];
        commands := commands + [Stamped(exitAt, Cancel(ident))];
        commands := commands + [Stamped(exitAt, Place(leg,
          Order("exit:" + leg + ":" + Text(exitAt), if entrySide == Buy then Sell else Buy, Market, 0.5, true)))];
        assert commands == before + LegCommands(legs[k], closes, index, i);
      }
      assert commands == start + StepCommands(route, closes, index, i);
      NextStep(n, i);
      NoStepBetween(route, closes, n, index, i, if i + n <= Steps(index) then i + n else Steps(index));
      i := i + n;
    }
  }

  lemma FirstStep(n: nat)
    requires n > 0
    ensures IsStep(n, 0)
  {
  }

  lemma NextStep(n: nat, i: nat)
    requires n > 0 && IsStep(n, i)
    ensures IsStep(n, i + n)
  {
    var k, q, r := i / n, (i + n) / n, (i + n) % n;
    assert i == k * n;
    assert i + n == q * n + r;
    assert (k + 1 - q) * n == r;
    if r != 0 {
      Multiples(n, k + 1 - q, r);
    }
  }

  // ---------------------------------------------------------------- identifiers

  lemma ColonPosition(a: string, s: string, b: string, t: string)
    requires a + ":" + s == b + ":" + t
    requires forall i :: 0 <= i < |b| ==> b[i] != ':'
    ensures |a| >= |b|
  {
    var u, v := a + ":" + s, b + ":" + t;
    assert u[|a|] == ':';
    assert forall i :: 0 <= i < |b| ==> v[i] == b[i];
  }

  ghost predicate ColonFree(leg: string) {
    forall i :: 0 <= i < |leg| ==> leg[i] != ':'
  }

  /** Two generated names agree only when leg and timestamp agree. */
  lemma NameInjective(a: string, s: int, b: string, t: int)
    requires ColonFree(a) && ColonFree(b)
    requires a + ":" + Text(s) == b + ":" + Text(t)
    ensures a == b && s == t
  {
    ColonPosition(a, Text(s), b, Text(t));
    ColonPosition(b, Text(t), a, Text(s));
    var u, v := a + ":" + Text(s), b + ":" + Text(t);
    assert a == u[..|a|] && b == v[..|b|];
    assert Text(s) == u[|a| + 1..] && Text(t) == v[|b| + 1..];
    TextInjective(s, t);
  }

  lemma DropPrefix(p: string, a: string, s: string, b: string, t: string)
    requires p + a + ":" + s == p + b + ":" + t
    ensures a + ":" + s == b + ":" + t
  {
    assert (p + a + ":" + s)[|p|..] == a + ":" + s;
    assert (p + b + ":" + t)[|p|..] == b + ":" + t;
  }

  lemma EntryIdInjective(a: string, s: int, b: string, t: int)
    requires ColonFree(a) && ColonFree(b) && EntryId(a, s) == EntryId(b, t)
    ensures a == b && s == t
  {
    hide Text;
    DropPrefix("entry:", a, Text(s), b, Text(t));
    NameInjective(a, s, b, t);
  }

  lemma ExitIdInjective(a: string, s: int, b: string, t: int)
    requires ColonFree(a) && ColonFree(b) && ExitId(a, s) == ExitId(b, t)
    ensures a == b && s == t
  {
    hide Text;
    DropPrefix("exit:", a, Text(s), b, Text(t));
    NameInjective(a, s, b, t);
  }

  lemma EntryIsNotExit(a: string, s: int, b: string, t: int)
    ensures EntryId(a, s) != ExitId(b, t)
  {
    hide Text;
    assert EntryId(a, s)[1] == 'n' && ExitId(b, t)[1] == 'x';
  }

  lemma SymbolColonFree(route: Route, leg: string)
    requires IsSymbol(route, leg)
    ensures ColonFree(leg)
  {
  }

  /** Which leg of which step a position of the tape belongs to. */
  datatype Origin = Origin(step: nat, leg: (string, Side), role: nat)

  ghost predicate From(route: Route, closes: Closes, index: seq<int>, s: Stamped<string>, o: Origin) {
    && Priced(route, closes, index) && o.step + 3 < |index| && o.role < 3
    && o.leg in Legs(route, index[o.step + 1])
    && IsSymbol(route, o.leg.0)
    && s == LegCommands(o.leg, closes, index, o.step)[o.role]
  }

  function Id(s: Stamped<string>): string {
    match s.command
    case Place(_, o) => o.id
    case Cancel(id) => id
    case CancelAll(_) => ""
  }

  lemma SameStep(index: seq<int>, i: nat, j: nat)
    requires Increasing(index) && i < |index| && j < |index| && index[i] == index[j]
    ensures i == j
  {
  }

  /** The legs of one step trade different symbols. */
  lemma SameSide(route: Route, entry: int, a: (string, Side), b: (string, Side))
    requires a in Legs(route, entry) && b in Legs(route, entry) && a.0 == b.0
    ensures a == b
  {
    assert |QUARTER_1| == 9 && |QUARTER_2| == 9 && |PERP| == 4;
  }

  /** Distinct origins give distinct placed identifiers. */
  lemma PlacedIdsDiffer(route: Route, closes: Closes, index: seq<int>, s: Stamped<string>, o: Origin,
                        t: Stamped<string>, q: Origin)
    requires Increasing(index)
    requires From(route, closes, index, s, o) && From(route, closes, index, t, q) && o != q
    requires s.command.Place? && t.command.Place?
    ensures Id(s) != Id(t)
  {
    hide IsSymbol;
    hide EntryId;
    hide ExitId;
    hide ColonFree;
    SymbolColonFree(route, o.leg.0);
    SymbolColonFree(route, q.leg.0);
    EntryIsNotExit(o.leg.0, index[o.step + 1], q.leg.0, index[q.step + 3]);
    EntryIsNotExit(q.leg.0, index[q.step + 1], o.leg.0, index[o.step + 3]);
    if o.role == 0 && q.role == 0 && Id(s) == Id(t) {
      EntryIdInjective(o.leg.0, index[o.step + 1], q.leg.0, index[q.step + 1]);
      SameStep(index, o.step + 1, q.step + 1);
      SameSide(route, index[o.step + 1], o.leg, q.leg);
    }
    if o.role == 2 && q.role == 2 && Id(s) == Id(t) {
      ExitIdInjective(o.leg.0, index[o.step + 3], q.leg.0, index[q.step + 3]);
      SameStep(index, o.step + 3, q.step + 3);
      SameSide(route, index[o.step + 1], o.leg, q.leg);
    }
  }

  /** Every position of the tape has an origin, and no two positions share one. */
  ghost predicate Traced(route: Route, closes: Closes, index: seq<int>, tape: seq<Stamped<string>>, os: seq<Origin>) {
    && |os| == |tape|
    && (forall k :: 0 <= k < |tape| ==> From(route, closes, index, tape[k], os[k]))
    && (forall j, k :: 0 <= j < k < |os| ==> os[j] != os[k])
    && (forall k :: 0 <= k < |tape| && os[k].role == 1 ==>
          k > 0 && os[k - 1] == os[k].(role := 0))
  }

  ghost function LegOrigins(leg: (string, Side), i: nat): seq<Origin> {
    [Origin(i, leg, 0), Origin(i, leg, 1), Origin(i, leg, 2)]
  }

  ghost function StepOrigins(route: Route, index: seq<int>, i: nat): seq<Origin>
    requires i + 3 < |index|
  {
    var legs := Legs(route, index[i + 1]);
    LegOrigins(legs[0], i) + if |legs| == 2 then LegOrigins(legs[1], i) else []
  }

  ghost function Origins(route: Route, n: nat, index: seq<int>, upto: nat): seq<Origin>
    requires n > 0 && (upto == 0 || upto + 3 <= |index|)
  {
    if upto == 0 then []
    else Origins(route, n, index, upto - 1) + if IsStep(n, upto - 1) then StepOrigins(route, index, upto - 1) else []
  }

  lemma LegTraced(route: Route, closes: Closes, index: seq<int>, i: nat, leg: (string, Side))
    requires Priced(route, closes, index) && i + 3 < |index|
    requires leg in Legs(route, index[i + 1]) && IsSymbol(route, leg.0)
    ensures Traced(route, closes, index, LegCommands(leg, closes, index, i), LegOrigins(leg, i))
    ensures forall o :: o in LegOrigins(leg, i) ==> o.step == i && o.leg == leg
    ensures LegOrigins(leg, i)[0].role == 0
  {
    hide Legs;
    hide IsSymbol;
    hide EntryOrder;
    hide ExitOrder;
    hide EntryId;
  }

  /** Joining two traced parts that share no origin, the second not starting with a cancel. */
  lemma TracedConcat(route: Route, closes: Closes, index: seq<int>,
                     a: seq<Stamped<string>>, os: seq<Origin>, b: seq<Stamped<string>>, qs: seq<Origin>)
    requires Traced(route, closes, index, a, os) && Traced(route, closes, index, b, qs)
    requires forall o, q :: o in os && q in qs ==> o != q
    requires qs == [] || qs[0].role == 0
    ensures Traced(route, closes, index, a + b, os + qs)
  {
    hide From;
    var all := os + qs;
    forall j, k | 0 <= j < k < |all| ensures all[j] != all[k] {
      if j < |os| <= k {
        assert os[j] in os && qs[k - |os|] in qs;
      }
    }
  }

  lemma StepTraced(route: Route, closes: Closes, index: seq<int>, i: nat)
    requires Priced(route, closes, index) && i + 3 < |index|
    ensures Traced(route, closes, index, StepCommands(route, closes, index, i), StepOrigins(route, index, i))
    ensures forall o :: o in StepOrigins(route, index, i) ==> o.step == i
    ensures |StepOrigins(route, index, i)| > 0 && StepOrigins(route, index, i)[0].role == 0
  {
    var legs := Legs(route, index[i + 1]);
    LegsKnown(route, index[i + 1]);
    hide Legs;
    hide IsSymbol;
    hide From;
    hide LegCommands;
    hide Traced;
    LegTraced(route, closes, index, i, legs[0]);
    if |legs| == 2 {
      LegTraced(route, closes, index, i, legs[1]);
      TracedConcat(route, closes, index, LegCommands(legs[0], closes, index, i), LegOrigins(legs[0], i),
                   LegCommands(legs[1], closes, index, i), LegOrigins(legs[1], i));
    } else {
      assert LegCommands(legs[0], closes, index, i) + [] == LegCommands(legs[0], closes, index, i);
      assert LegOrigins(legs[0], i) + [] == LegOrigins(legs[0], i);
    }
  }

  lemma {:induction false} OriginsBelow(route: Route, n: nat, index: seq<int>, upto: nat)
    requires n > 0 && (upto == 0 || upto + 3 <= |index|)
    ensures forall o :: o in Origins(route, n, index, upto) ==> o.step < upto
    decreases upto
  {
    if upto == 0 {
    } else {
      OriginsBelow(route, n, index, upto - 1);
      LegsKnown(route, index[upto]);
      hide Legs;
      hide IsStep;
    }
  }

  lemma ExtendTraced(route: Route, closes: Closes, n: nat, index: seq<int>, upto: nat,
                     t: seq<Stamped<string>>, os: seq<Origin>)
    requires n > 0 && Priced(route, closes, index) && 0 < upto && upto + 3 <= |index|
    requires Traced(route, closes, index, t, os) && forall o :: o in os ==> o.step < upto - 1
    ensures Traced(route, closes, index,
                   t + (if IsStep(n, upto - 1) then StepCommands(route, closes, index, upto - 1) else []),
                   os + (if IsStep(n, upto - 1) then StepOrigins(route, index, upto - 1) else []))
  {
    hide StepCommands;
    hide StepOrigins;
    hide IsStep;
    hide Traced;
    hide IsSymbol;
    if IsStep(n, upto - 1) {
      StepTraced(route, closes, index, upto - 1);
      TracedConcat(route, closes, index, t, os,
                   StepCommands(route, closes, index, upto - 1), StepOrigins(route, index, upto - 1));
    } else {
      assert t + [] == t && os + [] == os;
    }
  }

  lemma {:induction false} TapeTraced(route: Route, closes: Closes, n: nat, index: seq<int>, upto: nat)
    requires n > 0 && Priced(route, closes, index) && (upto == 0 || upto + 3 <= |index|)
    ensures Traced(route, closes, index, Tape(route, closes, n, index, upto), Origins(route, n, index, upto))
    decreases upto
  {
    hide StepCommands;
    hide StepOrigins;
    hide IsStep;
    hide IsSymbol;
    hide From;
    if upto == 0 {
    } else {
      hide Traced;
      TapeTraced(route, closes, n, index, upto - 1);
      OriginsBelow(route, n, index, upto - 1);
      ExtendTraced(route, closes, n, index, upto,
                   Tape(route, closes, n, index, upto - 1), Origins(route, n, index, upto - 1));
    }
  }

  /** What the three roles of a leg are. */
  lemma Roles(route: Route, closes: Closes, index: seq<int>, s: Stamped<string>, o: Origin)
    requires From(route, closes, index, s, o)
    ensures o.role == 0 ==> s.command.Place? && s.command.symbol == o.leg.0 && s.at == index[o.step + 1]
                            && Id(s) == EntryId(o.leg.0, index[o.step + 1])
    ensures o.role == 1 ==> s.command.Cancel? && s.at == index[o.step + 3]
                            && Id(s) == EntryId(o.leg.0, index[o.step + 1])
    ensures o.role == 2 ==> s.command.Place? && s.command.symbol == o.leg.0 && s.at == index[o.step + 3]
                            && Id(s) == ExitId(o.leg.0, index[o.step + 3])
  {
    hide EntryId;
    hide ExitId;
    hide Legs;
    hide IsSymbol;
  }

  /**
    Placed identifiers are unique over the whole tape, and every cancel names an order that the tape
    places strictly earlier in time.
   */
  lemma CancelsHitSubmittedOrders(route: Route, closes: Closes, n: nat, index: seq<int>)
    requires n > 0 && Priced(route, closes, index) && Increasing(index)
    ensures var tape := FullTape(route, closes, n, index);
            && (forall j, k :: 0 <= j < k < |tape| && tape[j].command.Place? && tape[k].command.Place? ==>
                  Id(tape[j]) != Id(tape[k]))
            && (forall k :: 0 <= k < |tape| && !tape[k].command.Place? ==>
                  && k > 0 && tape[k].command.Cancel?
                  && tape[k - 1].command.Place? && Id(tape[k - 1]) == Id(tape[k])
                  && tape[k - 1].at < tape[k].at)
  {
    var tape, os := FullTape(route, closes, n, index), Origins(route, n, index, Steps(index));
    TapeTraced(route, closes, n, index, Steps(index));
    hide FullTape;
    hide Origins;
    hide EntryId;
    hide ExitId;
    forall j, k | 0 <= j < k < |tape| && tape[j].command.Place? && tape[k].command.Place?
      ensures Id(tape[j]) != Id(tape[k])
    {
      hide From;
      PlacedIdsDiffer(route, closes, index, tape[j], os[j], tape[k], os[k]);
    }
    forall k | 0 <= k < |tape| && !tape[k].command.Place?
      ensures k > 0 && tape[k].command.Cancel? && tape[k - 1].command.Place?
      ensures Id(tape[k - 1]) == Id(tape[k]) && tape[k - 1].at < tape[k].at
    {
      assert From(route, closes, index, tape[k], os[k]);
      Roles(route, closes, index, tape[k], os[k]);
      assert os[k].role == 1;
      assert From(route, closes, index, tape[k - 1], os[k - 1]);
      Roles(route, closes, index, tape[k - 1], os[k - 1]);
    }
  }

  ghost predicate Daily(index: seq<int>) {
    forall i :: 0 <= i && i + 1 < |index| ==> index[i + 1] == index[i] + DAY
  }

  /** An order on the symbol or the cancel of one of its entries. */
  ghost predicate Concerns(s: Stamped<string>, symbol: string) {
    match s.command
    case Place(on, _) => on == symbol
    case Cancel(id) => exists t :: id == EntryId(symbol, t)
    case CancelAll(_) => false
  }

  /** A command of a leg concerns no other symbol, and is stamped on the step's entry or exit bar. */
  lemma CommandOfLeg(route: Route, closes: Closes, index: seq<int>, s: Stamped<string>, o: Origin, symbol: string)
    requires From(route, closes, index, s, o) && ColonFree(symbol) && Concerns(s, symbol)
    ensures o.leg.0 == symbol && (s.at == index[o.step + 1] || s.at == index[o.step + 3])
  {
    Roles(route, closes, index, s, o);
    SymbolColonFree(route, o.leg.0);
    hide From;
    hide ExitId;
    hide EntryId;
    if o.role == 1 {
      var t :| s.command.id == EntryId(symbol, t);
      EntryIdInjective(o.leg.0, index[o.step + 1], symbol, t);
    }
  }

  /**
    On consecutive days every command on the first contract, cancels included, is stamped before its flatten
    timestamp, and none on the second one before the roll.
   */
  lemma OrdersPrecedeFlatten(route: Route, closes: Closes, n: nat, index: seq<int>, k: nat)
    requires n > 0 && Priced(route, closes, index) && Daily(index)
    requires k < |FullTape(route, closes, n, index)|
    ensures var s := FullTape(route, closes, n, index)[k];
            && (Concerns(s, QUARTER_1) ==> s.at < FLATTEN_1)
            && (Concerns(s, QUARTER_2) ==> ROLL <= s.at)
  {
    TapeTraced(route, closes, n, index, Steps(index));
    hide Tape;
    hide Origins;
    hide From;
    OfLegInTime(route, closes, index, FullTape(route, closes, n, index)[k],
                Origins(route, n, index, Steps(index))[k]);
  }

  /** A command of a leg on a contract is stamped between the contract's bounds. */
  lemma OfLegInTime(route: Route, closes: Closes, index: seq<int>, s: Stamped<string>, o: Origin)
    requires Daily(index) && From(route, closes, index, s, o)
    ensures Concerns(s, QUARTER_1) ==> s.at < FLATTEN_1
    ensures Concerns(s, QUARTER_2) ==> ROLL <= s.at
  {
    LegsByRoll(route, index[o.step + 1], o.leg);
    assert index[o.step + 1 + 1] == index[o.step + 1] + DAY;
    assert index[o.step + 2 + 1] == index[o.step + 2] + DAY;
    ContractsColonFree();
    hide *;
    if Concerns(s, QUARTER_1) {
      CommandOfLeg(route, closes, index, s, o, QUARTER_1);
    }
    if Concerns(s, QUARTER_2) {
      CommandOfLeg(route, closes, index, s, o, QUARTER_2);
    }
    RollAndFlatten();
  }

  lemma ContractsColonFree()
    ensures ColonFree(QUARTER_1) && ColonFree(QUARTER_2)
  {
  }

  lemma RollAndFlatten()
    ensures ROLL + 2 * DAY == FLATTEN_1 && DAY > 0
  {
  }

  /** The first contract is entered before the roll only, the second one from the roll on. */
  lemma LegsByRoll(route: Route, entry: int, leg: (string, Side))
    requires leg in Legs(route, entry)
    ensures leg.0 == QUARTER_1 ==> entry < ROLL
    ensures leg.0 == QUARTER_2 ==> ROLL <= entry
  {
    assert |QUARTER_1| == 9 && |QUARTER_2| == 9 && |PERP| == 4 && |SINGLE| == 1;
  }

  /** Every command of a step before `upto` is on the tape. */
  lemma {:induction false} StepOnTape(route: Route, closes: Closes, n: nat, index: seq<int>, i: nat, upto: nat,
                                      s: Stamped<string>)
    requires n > 0 && Priced(route, closes, index) && IsStep(n, i) && i < upto && upto + 3 <= |index|
    requires s in StepCommands(route, closes, index, i)
    ensures s in Tape(route, closes, n, index, upto)
    decreases upto
  {
    hide StepCommands;
    hide IsStep;
    hide IsSymbol;
    if i < upto - 1 {
      StepOnTape(route, closes, n, index, i, upto - 1, s);
    }
  }

  /**
    Nothing stops the delivery route at the second contract's flatten timestamp: on consecutive days the tape
    concerns it at or after that time exactly when some step leaves at or after it.
   */
  lemma SecondFlattenReached(closes: Closes, n: nat, index: seq<int>)
    requires n > 0 && Priced(DeliveryArbitrage, closes, index) && Daily(index)
    ensures (exists s :: s in FullTape(DeliveryArbitrage, closes, n, index)
                         && Concerns(s, QUARTER_2) && FLATTEN_2 <= s.at)
            <==> exists i :: 0 <= i && i + 3 < |index| && IsStep(n, i) && FLATTEN_2 <= index[i + 3]
  {
    var tape := FullTape(DeliveryArbitrage, closes, n, index);
    if s :| s in tape && Concerns(s, QUARTER_2) && FLATTEN_2 <= s.at {
      var k :| 0 <= k < |tape| && tape[k] == s;
      var i := LeavesLate(closes, n, index, k);
    }
    if i: nat :| i + 3 < |index| && IsStep(n, i) && FLATTEN_2 <= index[i + 3] {
      var s := LateExit(closes, n, index, i);
    }
  }

  /** The four days up to the second contract's flatten timestamp: the step of the first day leaves at it. */
  lemma FourDaysReachFlatten(closes: Closes, n: nat)
    requires n > 0
    requires Priced(DeliveryArbitrage, closes, [FLATTEN_2 - 3 * DAY, FLATTEN_2 - 2 * DAY, FLATTEN_2 - DAY, FLATTEN_2])
    ensures exists s :: s in FullTape(DeliveryArbitrage, closes, n,
                                      [FLATTEN_2 - 3 * DAY, FLATTEN_2 - 2 * DAY, FLATTEN_2 - DAY, FLATTEN_2])
                        && Concerns(s, QUARTER_2) && s.at == FLATTEN_2
  {
    var index := [FLATTEN_2 - 3 * DAY, FLATTEN_2 - 2 * DAY, FLATTEN_2 - DAY, FLATTEN_2];
    FirstStep(n);
    assert Daily(index);
    var s := LateExit(closes, n, index, 0);
  }

  lemma OriginInIndex(route: Route, closes: Closes, index: seq<int>, s: Stamped<string>, o: Origin)
    requires From(route, closes, index, s, o)
    ensures o.step + 3 < |index|
  {
  }

  lemma LeavesLate(closes: Closes, n: nat, index: seq<int>, k: nat) returns (i: nat)
    requires n > 0 && Priced(DeliveryArbitrage, closes, index) && Daily(index)
    requires k < |FullTape(DeliveryArbitrage, closes, n, index)|
    requires var s := FullTape(DeliveryArbitrage, closes, n, index)[k];
             Concerns(s, QUARTER_2) && FLATTEN_2 <= s.at
    ensures i + 3 < |index| && IsStep(n, i) && FLATTEN_2 <= index[i + 3]
  {
    hide Tape;
    hide Origins;
    hide IsStep;
    hide From;
    hide Priced;
    hide Concerns;
    var os := Origins(DeliveryArbitrage, n, index, Steps(index));
    TapeTraced(DeliveryArbitrage, closes, n, index, Steps(index));
    OriginsAreSteps(DeliveryArbitrage, n, index, Steps(index));
    assert os[k] in os;
    i := os[k].step;
    ContractsColonFree();
    hide ColonFree;
    CommandOfLeg(DeliveryArbitrage, closes, index, FullTape(DeliveryArbitrage, closes, n, index)[k], os[k], QUARTER_2);
    OriginInIndex(DeliveryArbitrage, closes, index, FullTape(DeliveryArbitrage, closes, n, index)[k], os[k]);
    Later(index, i + 1, i + 3);
  }

  lemma {:induction false} OriginsAreSteps(route: Route, n: nat, index: seq<int>, upto: nat)
    requires n > 0 && (upto == 0 || upto + 3 <= |index|)
    ensures forall o :: o in Origins(route, n, index, upto) ==> IsStep(n, o.step)
    decreases upto
  {
    if upto == 0 {
    } else {
      OriginsAreSteps(route, n, index, upto - 1);
      LegsKnown(route, index[upto]);
      hide Legs;
      hide IsStep;
    }
  }

  lemma LateExit(closes: Closes, n: nat, index: seq<int>, i: nat) returns (s: Stamped<string>)
    requires n > 0 && Priced(DeliveryArbitrage, closes, index) && Daily(index)
    requires i + 3 < |index| && IsStep(n, i) && FLATTEN_2 <= index[i + 3]
    ensures s in FullTape(DeliveryArbitrage, closes, n, index) && Concerns(s, QUARTER_2) && s.at == index[i + 3]
  {
    assert index[i + 1 + 1] == index[i + 1] + DAY && index[i + 2 + 1] == index[i + 2] + DAY;
    var leg := (QUARTER_2, Buy);
    assert Legs(DeliveryArbitrage, index[i + 1])[0] == leg;
    var of := LegCommands(leg, closes, index, i);
    s := of[2];
    assert s in of;
    hide IsStep;
    hide Tape;
    StepOnTape(DeliveryArbitrage, closes, n, index, i, Steps(index), s);
  }

  lemma {:induction false} Later(index: seq<int>, i: nat, j: nat)
    requires Daily(index)
    requires i <= j < |index|
    ensures index[i] <= index[j]
    decreases j - i
  {
    if i < j {
      Later(index, i, j - 1);
      assert index[j - 1 + 1] == index[j - 1] + DAY;
    }
  }

  // ---------------------------------------------------------------- the tape spelled out

  /** What a step entered at `entry` trades: one symbol, or the contract of the time bought against the perpetual. */
  ghost predicate Pairs(route: Route, entry: int, leg: string, buys: bool) {
    match route
    case OrderCommands => leg == "X" && buys
    case DeliveryArbitrage =>
      || (leg == "PERP" && !buys)
      || (leg == (if entry < 1_624_752_000_000_000_000 then "QUARTER-1" else "QUARTER-2") && buys)
  }

  /** One of the three commands of a leg: the entry on the next bar, its cancel and the exit two bars later. */
  ghost predicate OneOf(c: Stamped<string>, leg: string, buys: bool, close: real, entry: int, exit: int) {
    var side, ident := if buys then Buy else Sell, "entry:" + leg + ":" + Text(entry);
    || (&& c.at == entry && c.command.Place? && c.command.symbol == leg && c.command.order.pricing.Limit?
        && 1000.0 * c.command.order.pricing.price == 998.0 * close
        && c.command.order == Order(ident, side, c.command.order.pricing, 0.5, false))
    || c == Stamped(exit, Cancel(ident))
    || c == Stamped(exit, Place(leg, Order("exit:" + leg + ":" + Text(exit), side.Opposite(), Market, 0.5, true)))
  }

  /** A command of a leg of a step that starts at bar `i` and fits the data. */
  ghost predicate IssuedAt(route: Route, closes: Closes, index: seq<int>, c: Stamped<string>, i: int,
                           leg: string, buys: bool) {
    && 0 <= i && i + 3 < |index| && Pairs(route, index[i + 1], leg, buys)
    && leg in closes && |closes[leg]| == |index|
    && OneOf(c, leg, buys, closes[leg][i], index[i + 1], index[i + 3])
  }

  /** The k-th step starts at bar `k * n`. */
  ghost predicate Issued(route: Route, closes: Closes, n: nat, index: seq<int>, c: Stamped<string>, k: nat,
                         leg: string, buys: bool) {
    IssuedAt(route, closes, index, c, k * n, leg, buys)
  }

  /** A command is on the tape exactly when it is one of a leg of a step. */
  lemma TapeMeans(route: Route, closes: Closes, n: nat, index: seq<int>, c: Stamped<string>)
    requires n > 0 && Priced(route, closes, index)
    ensures c in FullTape(route, closes, n, index) <==>
            exists k, leg, buys :: Issued(route, closes, n, index, c, k, leg, buys)
  {
    hide Issued;
    hide FullTape;
    if c in FullTape(route, closes, n, index) {
      var k, leg, buys := OnTapeIsIssued(route, closes, n, index, c);
    }
    forall k, leg, buys | Issued(route, closes, n, index, c, k, leg, buys)
      ensures c in FullTape(route, closes, n, index)
    {
      IssuedIsOnTape(route, closes, n, index, c, k, leg, buys);
    }
  }

  lemma PairsAreLegs(route: Route, entry: int, leg: string, buys: bool)
    ensures Pairs(route, entry, leg, buys) <==> (leg, if buys then Buy else Sell) in Legs(route, entry)
  {
    assert |QUARTER_1| == 9 && |QUARTER_2| == 9 && |PERP| == 4 && |SINGLE| == 1;
    var legs, l := Legs(route, entry), (leg, if buys then Buy else Sell);
    assert l in legs <==> l == legs[0] || (|legs| == 2 && l == legs[1]);
  }

  lemma OneOfExactly(c: Stamped<string>, leg: (string, Side), closes: Closes, index: seq<int>, i: nat)
    requires i + 3 < |index| && leg.0 in closes && |closes[leg.0]| == |index|
    ensures OneOf(c, leg.0, leg.1.Buy?, closes[leg.0][i], index[i + 1], index[i + 3])
            <==> c in LegCommands(leg, closes, index, i)
  {
    hide Text;
    var of, close := LegCommands(leg, closes, index, i), closes[leg.0][i];
    assert c in of <==> c == of[0] || c == of[1] || c == of[2];
    assert of[0].command.order.pricing == Limit(close * (1.0 - 0.002));
  }

  lemma OnTapeIsIssued(route: Route, closes: Closes, n: nat, index: seq<int>, c: Stamped<string>)
    returns (k: nat, leg: string, buys: bool)
    requires n > 0 && Priced(route, closes, index) && c in FullTape(route, closes, n, index)
    ensures Issued(route, closes, n, index, c, k, leg, buys)
  {
    hide Tape;
    hide Origins;
    hide From;
    hide IsStep;
    hide Issued;
    hide Priced;
    var tape, os := FullTape(route, closes, n, index), Origins(route, n, index, Steps(index));
    TapeTraced(route, closes, n, index, Steps(index));
    OriginsAreSteps(route, n, index, Steps(index));
    var p :| 0 <= p < |tape| && tape[p] == c;
    assert From(route, closes, index, tape[p], os[p]);
    assert os[p] in os;
    k, leg, buys := os[p].step / n, os[p].leg.0, os[p].leg.1.Buy?;
    FromIsIssued(route, closes, n, index, c, os[p]);
  }

  lemma FromIsIssued(route: Route, closes: Closes, n: nat, index: seq<int>, c: Stamped<string>, o: Origin)
    requires n > 0 && From(route, closes, index, c, o) && IsStep(n, o.step)
    ensures o.step / n >= 0 && Issued(route, closes, n, index, c, o.step / n, o.leg.0, o.leg.1.Buy?)
  {
    FromIsIssuedAt(route, closes, index, c, o);
    hide IssuedAt;
    hide From;
    StepIsMultiple(n, o.step);
    hide IsStep;
  }

  lemma StepIsMultiple(n: nat, i: nat)
    requires n > 0 && IsStep(n, i)
    ensures i / n >= 0 && (i / n) * n == i
  {
    assert i == (i / n) * n + i % n;
  }

  lemma FromIsIssuedAt(route: Route, closes: Closes, index: seq<int>, c: Stamped<string>, o: Origin)
    requires From(route, closes, index, c, o)
    ensures IssuedAt(route, closes, index, c, o.step, o.leg.0, o.leg.1.Buy?)
  {
    PairsAreLegs(route, index[o.step + 1], o.leg.0, o.leg.1.Buy?);
    OneOfExactly(c, o.leg, closes, index, o.step);
    hide OneOf;
    hide Pairs;
    hide Legs;
    assert c in LegCommands(o.leg, closes, index, o.step);
  }

  lemma IssuedIsOnTape(route: Route, closes: Closes, n: nat, index: seq<int>, c: Stamped<string>,
                       k: nat, leg: string, buys: bool)
    requires n > 0 && Priced(route, closes, index) && Issued(route, closes, n, index, c, k, leg, buys)
    ensures c in FullTape(route, closes, n, index)
  {
    var i := k * n;
    MultipleIsStep(n, k);
    hide IsStep;
    hide Tape;
    IssuedAtIsOnTape(route, closes, n, index, c, i, leg, buys);
  }

  lemma IssuedAtIsOnTape(route: Route, closes: Closes, n: nat, index: seq<int>, c: Stamped<string>,
                         i: nat, leg: string, buys: bool)
    requires n > 0 && Priced(route, closes, index) && IsStep(n, i)
    requires IssuedAt(route, closes, index, c, i, leg, buys)
    ensures c in FullTape(route, closes, n, index)
  {
    var l := (leg, if buys then Buy else Sell);
    PairsAreLegs(route, index[i + 1], leg, buys);
    OneOfExactly(c, l, closes, index, i);
    hide OneOf;
    hide Pairs;
    hide Legs;
    hide LegCommands;
    hide StepCommands;
    hide IsStep;
    hide Tape;
    InStepCommands(route, closes, index, i, l, c);
    StepOnTape(route, closes, n, index, i, Steps(index), c);
  }

  lemma MultipleIsStep(n: nat, k: nat)
    requires n > 0
    ensures k * n >= 0 && IsStep(n, k * n)
  {
    var q, r := (k * n) / n, (k * n) % n;
    assert k * n == q * n + r;
    if r != 0 {
      Multiples(n, k - q, r);
    }
  }

  lemma InStepCommands(route: Route, closes: Closes, index: seq<int>, i: nat, l: (string, Side), c: Stamped<string>)
    requires Priced(route, closes, index) && i + 3 < |index| && l in Legs(route, index[i + 1])
    requires l.0 in closes && |closes[l.0]| == |index| && c in LegCommands(l, closes, index, i)
    ensures c in StepCommands(route, closes, index, i)
  {
    LegsKnown(route, index[i + 1]);
    hide LegCommands;
  }
}
