/**
  The accounting loop of the gamma-scalping sample (benchmarks/gamma_scalping_backtestsample.py,
  `hedge_and_pnl`), over exact reals. The loop writes the frame in place, and its rollover branch writes
  the row before the current one as well.
*/
module GammaLedger {
  import opened Shared

  /** The aggregated straddle of one timestamp, already signed and scaled by the notional. */
  datatype Quote = Quote(spot: real, delta: real, mid: real, dte: real)

  datatype Row = Row(
    quote: Quote, portfolioDelta: real,
    pnl: real, cumPnl: real, cumReturn: real, hedgePnl: real, mtmChange: real,
    commission: real, commissionOption: real, commissionHedge: real)

  datatype Settings = Settings(
    notional: int, hedgeThreshold: real, minDte: real,
    optionCommission: real, hedgeCommission: real)

  function Times(x: real, y: real): real {
    x * y
  }

  function Ratio(x: real, y: real): real
    requires y != 0.0
  {
    x / y
  }

  function Fresh(q: Quote): Row {
    Row(q, q.delta, 0.0, 0.0, 0.0, 0.0, 0.0, 0.0, 0.0, 0.0)
  }

  // ---------------------------------------------------------------- what each bar earns

  function Mtm(qs: seq<Quote>, j: nat): real
    requires 0 < j < |qs|
  {
    qs[j].mid - qs[j - 1].mid
  }

  predicate Hedged(qs: seq<Quote>, s: Settings, j: nat)
    requires 0 < j < |qs|
  {
    Abs(qs[j - 1].delta) > s.hedgeThreshold
  }

  function Hedge(qs: seq<Quote>, s: Settings, j: nat): real
    requires 0 < j < |qs|
  {
    if Hedged(qs, s, j) then Times(-qs[j - 1].delta, qs[j].spot - qs[j - 1].spot) else 0.0
  }

  predicate RollsOver(qs: seq<Quote>, s: Settings, j: nat)
    requires j < |qs|
  {
    qs[j].dte < s.minDte
  }

  function OptionFee(qs: seq<Quote>, s: Settings, j: nat): real
    requires 0 < j < |qs|
  {
    if RollsOver(qs, s, j - 1) then Times(s.optionCommission, s.notional as real) else 0.0
  }

  function HedgeFee(qs: seq<Quote>, s: Settings, j: nat): real
    requires 0 < j < |qs|
  {
    if Hedged(qs, s, j) then Times(Abs(qs[j].delta - qs[j - 1].delta), s.hedgeCommission) else 0.0
  }

  function Net(qs: seq<Quote>, s: Settings, j: nat): real
    requires 0 < j < |qs|
  {
    Mtm(qs, j) + Hedge(qs, s, j) - (OptionFee(qs, s, j) + HedgeFee(qs, s, j))
  }

  function Cumulative(qs: seq<Quote>, s: Settings, j: nat): real
    requires j < |qs|
  {
    if j == 0 then 0.0 else Cumulative(qs, s, j - 1) + Net(qs, s, j)
  }

  /** The entry value, or 1 when that is zero. */
  function Capital(qs: seq<Quote>): (c: real)
    requires qs != []
    ensures c > 0.0
  {
    if qs[0].mid == 0.0 then 1.0 else Abs(qs[0].mid)
  }

  /**
    Row `j` once the loop has handled the bars below `done`. A rollover at `j`, seen when bar `j + 1` is handled,
    overwrites the row's mark-to-market cell with zero.
   */
  function Booked(qs: seq<Quote>, s: Settings, j: nat, done: nat): Row
    requires j < |qs|
  {
    if j == 0 || done <= j then Fresh(qs[j])
    else
      var cum := Cumulative(qs, s, j);
      Row(qs[j], qs[j].delta, Net(qs, s, j), cum, Ratio(cum, Capital(qs)), Hedge(qs, s, j),
          if j + 1 < done && RollsOver(qs, s, j) then 0.0 else Mtm(qs, j),
          OptionFee(qs, s, j) + HedgeFee(qs, s, j), OptionFee(qs, s, j), HedgeFee(qs, s, j))
  }

  function Quotes(rows: seq<Row>): (qs: seq<Quote>)
    ensures |qs| == |rows|
  {
    seq(|rows|, j requires 0 <= j < |rows| => rows[j].quote)
  }

  /** The finished frame. */
  function Ledger(qs: seq<Quote>, s: Settings): (rows: seq<Row>)
    ensures |rows| == |qs|
  {
    seq(|qs|, j requires 0 <= j < |qs| => Booked(qs, s, j, |qs|))
  }

  // ---------------------------------------------------------------- the loop

  method HedgeAndPnl(df: array<Row>, s: Settings)
    modifies df
    ensures df[..] == Ledger(Quotes(old(df[..])), s)
  {
    hide Times;
    hide Ratio;
    hide Booked;
    hide Cumulative;
    hide Ledger;
    ghost var qs := Quotes(df[..]);
    forall j | 0 <= j < df.Length {
      df[j] := Fresh(df[j].quote);
    }
    if df.Length == 0 {
      return;
    }
    var initialCapital := Abs(df[0].quote.mid);
    if initialCapital == 0.0 {
      initialCapital := 1.0;
    }
    hide Capital;
    hide Quotes;
    hide Abs;
    NothingBooked(qs, s);
    var currentPositionValue := df[0].quote.mid;
    for i := 1 to df.Length
      invariant initialCapital == Capital(qs)
      invariant currentPositionValue == qs[i - 1].mid
      invariant forall j :: 0 <= j < df.Length ==> df[j] == Booked(qs, s, j, i)
    {
      var prev, row := df[i - 1], df[i];
      BookedLater(qs, s, i);
      BookedNow(qs, s, i);
      var ds := row.quote.spot - prev.quote.spot;
      var optionFee, hedgeFee := 0.0, 0.0;
      if prev.quote.dte < s.minDte {
        var closePnl := prev.quote.mid - currentPositionValue;
        df[i - 1] := df[i - 1].(pnl := df[i - 1].pnl + closePnl, mtmChange := closePnl);
        optionFee := Times(s.optionCommission, s.notional as real);
        currentPositionValue := row.quote.mid;
        df[i] := df[i].(portfolioDelta := row.quote.delta);
      } else {
        currentPositionValue := row.quote.mid;
      }
      assert df[i - 1] == Booked(qs, s, i - 1, i + 1);
      assert df[i] == Fresh(qs[i]) && optionFee == OptionFee(qs, s, i);
      var mtm := row.quote.mid - prev.quote.mid;
      var hedge := 0.0;
      if Abs(prev.portfolioDelta) > s.hedgeThreshold {
        hedge := Times(-prev.portfolioDelta, ds);
        hedgeFee := Times(Abs(row.quote.delta - prev.portfolioDelta), s.hedgeCommission);
        df[i] := df[i].(portfolioDelta := row.quote.delta);
      }
      var net := mtm + hedge - (optionFee + hedgeFee);
      assert net == Net(qs, s, i) && hedge == Hedge(qs, s, i) && hedgeFee == HedgeFee(qs, s, i);
      hide Net;
      hide Hedge;
      hide HedgeFee;
      hide OptionFee;
      var cum := df[i - 1].cumPnl + net;
      df[i] := df[i].(mtmChange := mtm, hedgePnl := hedge, pnl := net,
                      cumPnl := cum, cumReturn := Ratio(cum, initialCapital),
                      commission := optionFee + hedgeFee, commissionOption := optionFee, commissionHedge := hedgeFee);
    }
    AllBooked(qs, s, df[..]);
  }

  lemma NothingBooked(qs: seq<Quote>, s: Settings)
    ensures forall j :: 0 <= j < |qs| ==> Booked(qs, s, j, 1) == Fresh(qs[j])
  {
  }

  /** The two rows of interest before bar `i` is handled, and the current one afterwards. */
  lemma BookedNow(qs: seq<Quote>, s: Settings, i: nat)
    requires 0 < i < |qs|
    ensures Booked(qs, s, i, i) == Fresh(qs[i])
    ensures var p := Booked(qs, s, i - 1, i);
            p.quote == qs[i - 1] && p.portfolioDelta == qs[i - 1].delta && p.cumPnl == Cumulative(qs, s, i - 1)
            && (i == 1 ==> p.mtmChange == 0.0)
    ensures var cum := Cumulative(qs, s, i - 1) + Net(qs, s, i);
            Booked(qs, s, i, i + 1)
            == Row(qs[i], qs[i].delta, Net(qs, s, i), cum, Ratio(cum, Capital(qs)), Hedge(qs, s, i), Mtm(qs, i),
                   OptionFee(qs, s, i) + HedgeFee(qs, s, i), OptionFee(qs, s, i), HedgeFee(qs, s, i))
  {
    hide Ratio;
    hide Net;
    hide Hedge;
    hide HedgeFee;
    hide OptionFee;
  }

  lemma AllBooked(qs: seq<Quote>, s: Settings, rows: seq<Row>)
    requires |rows| == |qs| && forall j :: 0 <= j < |qs| ==> rows[j] == Booked(qs, s, j, |qs|)
    ensures rows == Ledger(qs, s)
  {
  }

  /** Handling bar `i` changes rows `i - 1` and `i` only. */
  lemma BookedLater(qs: seq<Quote>, s: Settings, i: nat)
    requires 0 < i < |qs|
    ensures forall j :: 0 <= j < |qs| && j != i - 1 && j != i ==> Booked(qs, s, j, i + 1) == Booked(qs, s, j, i)
    ensures Booked(qs, s, i - 1, i + 1)
            == if i > 1 && RollsOver(qs, s, i - 1) then Booked(qs, s, i - 1, i).(mtmChange := 0.0)
               else Booked(qs, s, i - 1, i)
  {
    hide Ratio;
  }

  // ---------------------------------------------------------------- conservation

  datatype Column = Pnl | HedgePnl | MtmChange | CommissionOption | CommissionHedge

  function Cell(r: Row, c: Column): real {
    match c
    case Pnl => r.pnl
    case HedgePnl => r.hedgePnl
    case MtmChange => r.mtmChange
    case CommissionOption => r.commissionOption
    case CommissionHedge => r.commissionHedge
  }

  /** The sum of one column. */
  function Sum(rows: seq<Row>, c: Column): real {
    if rows == [] then 0.0 else Sum(rows[..|rows| - 1], c) + Cell(rows[|rows| - 1], c)
  }

  lemma SumStep(rows: seq<Row>, c: Column, j: nat)
    requires j < |rows|
    ensures Sum(rows[..j + 1], c) == Sum(rows[..j], c) + Cell(rows[j], c)
  {
    assert rows[..j + 1][..j] == rows[..j];
  }

  lemma NoReturn(c: real)
    requires c != 0.0
    ensures Ratio(0.0, c) == 0.0
  {
  }

  /**
    After every bar, cumulative P&L is the sum of the P&L column so far, and equals the mid change since entry
    plus hedge P&L minus option and hedge commissions.
   */
  lemma {:induction false} PnlConserved(qs: seq<Quote>, s: Settings, j: nat)
    requires j < |qs|
    ensures var rows := Ledger(qs, s);
            && rows[j].cumPnl == Sum(rows[..j + 1], Pnl)
            && rows[j].cumPnl == qs[j].mid - qs[0].mid
                                 + Sum(rows[..j + 1], HedgePnl)
                                 - Sum(rows[..j + 1], CommissionOption)
                                 - Sum(rows[..j + 1], CommissionHedge)
            && rows[j].cumReturn == Ratio(rows[j].cumPnl, Capital(qs))
  {
    hide Times;
    hide Ratio;
    hide Capital;
    var rows := Ledger(qs, s);
    SumStep(rows, Pnl, j);
    SumStep(rows, HedgePnl, j);
    SumStep(rows, CommissionOption, j);
    SumStep(rows, CommissionHedge, j);
    if j > 0 {
      PnlConserved(qs, s, j - 1);
      assert rows[..j] == rows[..j - 1 + 1];
      assert Cumulative(qs, s, j) == Cumulative(qs, s, j - 1) + Net(qs, s, j);
      assert rows[j - 1].cumPnl == Cumulative(qs, s, j - 1);
    } else {
      assert rows[..0] == [];
      NoReturn(Capital(qs));
    }
  }

  /**
    A row's own identity, P&L = mark-to-market + hedge - commission, survives exactly where
    no rollover overwrites a non-zero mark-to-market cell.
   */
  lemma RowIdentityExactly(qs: seq<Quote>, s: Settings, j: nat)
    requires 0 < j < |qs|
    ensures var r := Ledger(qs, s)[j];
            r.pnl == r.mtmChange + r.hedgePnl - r.commission
            <==> (j + 1 == |qs| || !RollsOver(qs, s, j) || qs[j].mid == qs[j - 1].mid)
  {
    hide Times;
    hide Ratio;
    hide Capital;
  }

  /** What rollovers erase from the mark-to-market column in the first rows. */
  function Erased(qs: seq<Quote>, s: Settings, upto: nat): real
    requires upto <= |qs|
  {
    if upto == 0 then 0.0
    else Erased(qs, s, upto - 1)
         + if 1 < upto < |qs| && RollsOver(qs, s, upto - 1) then Mtm(qs, upto - 1) else 0.0
  }

  /** The mark-to-market column telescopes to the mid change, short of what rollovers erase. */
  lemma {:induction false} MtmColumnDeficit(qs: seq<Quote>, s: Settings, j: nat)
    requires j < |qs|
    ensures Sum(Ledger(qs, s)[..j + 1], MtmChange) + Erased(qs, s, j + 1) == qs[j].mid - qs[0].mid
  {
    hide Times;
    hide Ratio;
    hide Capital;
    var rows := Ledger(qs, s);
    SumStep(rows, MtmChange, j);
    if j == 0 {
    } else {
      MtmColumnDeficit(qs, s, j - 1);
      assert rows[..j] == rows[..j - 1 + 1];
    }
  }

  // ---------------------------------------------------------------- a rollover that erases

  const ROLLING := [Quote(100.0, 0.0, 10.0, 5.0), Quote(100.0, 0.0, 12.0, 1.0), Quote(100.0, 0.0, 12.0, 5.0)]
  const WEEKLY := Settings(1, 1.0, 2.0, 0.0, 0.0)

  /** The second bar gains 2; the rollover on the third overwrites that cell, and the column ends 2 short. */
  lemma RolloverErases()
    ensures var rows := Ledger(ROLLING, WEEKLY);
            && |rows| == 3
            && rows[1].pnl != rows[1].mtmChange + rows[1].hedgePnl - rows[1].commission
            && rows[2].cumPnl == 2.0 && Sum(rows, MtmChange) == 0.0
  {
    hide Ledger;
    hide Sum;
    hide Cell;
    RollsInBetween(ROLLING, WEEKLY);
  }

  lemma RollsInBetween(qs: seq<Quote>, s: Settings)
    requires |qs| == 3 && s.notional == 1 && s.optionCommission == s.hedgeCommission == 0.0
    requires s.hedgeThreshold == 1.0 && qs[0].delta == qs[1].delta == 0.0
    requires qs[0].mid == 10.0 && qs[1].mid == qs[2].mid == 12.0
    requires qs[1].dte < s.minDte
    ensures var rows := Ledger(qs, s);
            && |rows| == 3
            && rows[1].pnl != rows[1].mtmChange + rows[1].hedgePnl - rows[1].commission
            && rows[2].cumPnl == 2.0 && Sum(rows, MtmChange) == 0.0
  {
    RowIdentityExactly(qs, s, 1);
    MtmColumnDeficit(qs, s, 2);
    assert Ledger(qs, s)[..2 + 1] == Ledger(qs, s);
    assert Erased(qs, s, 1) == 0.0 && Erased(qs, s, 2) == 2.0 && Erased(qs, s, 3) == 2.0;
    assert Net(qs, s, 1) == 2.0 && Net(qs, s, 2) == 0.0;
    assert Cumulative(qs, s, 1) == 2.0;
    hide Ratio;
    hide Capital;
    hide Sum;
    hide Erased;
    hide Net;
  }

  // ---------------------------------------------------------------- what each cell means

  /** The first row books nothing; every row keeps its quote and is rebalanced to its own delta. */
  lemma EntryRow(qs: seq<Quote>, s: Settings)
    requires qs != []
    ensures Ledger(qs, s)[0] == Row(qs[0], qs[0].delta, 0.0, 0.0, 0.0, 0.0, 0.0, 0.0, 0.0, 0.0)
    ensures forall j :: 0 <= j < |qs| ==>
              Ledger(qs, s)[j].quote == qs[j] && Ledger(qs, s)[j].portfolioDelta == qs[j].delta
  {
  }

  /**
    The hedge is the short of the previous delta, held over the bar exactly when that delta exceeds the threshold in
    size: with the move of the spot it adds up to nothing.
   */
  lemma HedgeMeans(qs: seq<Quote>, s: Settings, j: nat)
    requires 0 < j < |qs|
    ensures var r, delta, move := Ledger(qs, s)[j], qs[j - 1].delta, qs[j].spot - qs[j - 1].spot;
            if delta > s.hedgeThreshold || -delta > s.hedgeThreshold then r.hedgePnl + delta * move == 0.0
            else r.hedgePnl == 0.0
  {
    hide Ratio;
    var delta, move := qs[j - 1].delta, qs[j].spot - qs[j - 1].spot;
    assert Times(-delta, move) + delta * move == 0.0;
    hide Times;
  }

  /** The hedge fee is charged on the rebalanced amount, exactly when the hedge was on. */
  lemma HedgeFeeMeans(qs: seq<Quote>, s: Settings, j: nat)
    requires 0 < j < |qs|
    ensures var r, before, after := Ledger(qs, s)[j], qs[j - 1].delta, qs[j].delta;
            if before > s.hedgeThreshold || -before > s.hedgeThreshold
            then r.commissionHedge == (if after >= before then after - before else before - after) * s.hedgeCommission
            else r.commissionHedge == 0.0
  {
    hide Ratio;
  }

  /** The option fee is charged on the bar after one with too few days left, on the whole notional. */
  lemma OptionFeeMeans(qs: seq<Quote>, s: Settings, j: nat)
    requires 0 < j < |qs|
    ensures var r := Ledger(qs, s)[j];
            r.commissionOption == if qs[j - 1].dte < s.minDte then s.optionCommission * (s.notional as real) else 0.0
    ensures Ledger(qs, s)[j].commission == Ledger(qs, s)[j].commissionOption + Ledger(qs, s)[j].commissionHedge
  {
    hide Ratio;
  }

  /** The bar's own profit, and the mark-to-market cell that a rollover on the next bar overwrites. */
  lemma PnlMeans(qs: seq<Quote>, s: Settings, j: nat)
    requires 0 < j < |qs|
    ensures var r := Ledger(qs, s)[j];
            && r.pnl == qs[j].mid - qs[j - 1].mid + r.hedgePnl - r.commission
            && r.mtmChange == (if j + 1 < |qs| && qs[j].dte < s.minDte then 0.0 else qs[j].mid - qs[j - 1].mid)
            && r.cumPnl == Ledger(qs, s)[j - 1].cumPnl + r.pnl
  {
    hide Times;
    hide Ratio;
    assert Cumulative(qs, s, 0) == 0.0;
    assert Cumulative(qs, s, j) == Cumulative(qs, s, j - 1) + Net(qs, s, j);
  }

  /** Returns are relative to the size of the entry value, or to 1 when that is zero. */
  lemma ReturnMeans(qs: seq<Quote>, s: Settings, j: nat)
    requires j < |qs|
    ensures var r, entry := Ledger(qs, s)[j], qs[0].mid;
            r.cumReturn * (if entry == 0.0 then 1.0 else if entry > 0.0 then entry else -entry) == r.cumPnl
  {
    hide Times;
    hide Net;
    var c := Capital(qs);
    if j == 0 {
      assert 0.0 * c == 0.0;
    } else {
      assert Ratio(Cumulative(qs, s, j), c) * c == Cumulative(qs, s, j);
    }
  }

  /** If the option moves by exactly its delta, a hedged bar earns nothing but its commission. */
  lemma DeltaNeutral(qs: seq<Quote>, s: Settings, j: nat)
    requires 0 < j < |qs|
    requires qs[j - 1].delta > s.hedgeThreshold || -qs[j - 1].delta > s.hedgeThreshold
    requires qs[j].mid - qs[j - 1].mid == qs[j - 1].delta * (qs[j].spot - qs[j - 1].spot)
    ensures Ledger(qs, s)[j].pnl == -Ledger(qs, s)[j].commission
  {
    hide Ledger;
    HedgeMeans(qs, s, j);
    PnlMeans(qs, s, j);
  }

  /** Two bars with a delta of 0.5: the spot gains 10, the hedge loses 5, and rebalancing by 0.2 costs 0.01. */
  lemma HedgedLedger()
    ensures var rows := Ledger([Quote(100.0, 0.5, 10.0, 1.0), Quote(110.0, 0.7, 10.0, 5.0)],
                               Settings(100, 0.05, 2.0, 3.0, 0.05));
            && rows[1].hedgePnl == -5.0
            && rows[1].commissionHedge == 0.01 && rows[1].commissionOption == 300.0
            && rows[1].pnl == -305.01 && rows[1].cumPnl == -305.01
  {
    var qs, s := [Quote(100.0, 0.5, 10.0, 1.0), Quote(110.0, 0.7, 10.0, 5.0)], Settings(100, 0.05, 2.0, 3.0, 0.05);
    hide Ledger;
    EntryRow(qs, s);
    HedgeMeans(qs, s, 1);
    HedgeFeeMeans(qs, s, 1);
    OptionFeeMeans(qs, s, 1);
    PnlMeans(qs, s, 1);
  }
}
