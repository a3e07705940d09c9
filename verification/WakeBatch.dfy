/**
  One entry-and-exit strategy driven two ways (examples/wfo_reactive_samplers.py): called on
  every bar, or as a batch of candidates each woken only at the bars its wake plan names.
*/
module WakeBatch {
  import opened Shared
  import opened Matching
  import opened CommandWriter

  datatype Params = Params(qty: real, hold: int, direction: real, extra: Option<int>)

  datatype Task = Task(startBar: int, endBar: int)

  datatype WakePlan = WakePlan(nextBar: Option<int>)

  function EntrySide(p: Params): Side {
    if p.direction > 0.0 then Buy else Sell
  }

  function ExitBar(p: Params, t: Task): int {
    var planned := t.startBar + p.hold + (match p.extra case None => 0 case Some(e) => e);
    if planned < t.endBar - 2 then planned else t.endBar - 2
  }

  function Entry(p: Params): Command<nat> {
    Place(0, Order("", EntrySide(p), Market, p.qty, false))
  }

  function Exit(p: Params): Command<nat> {
    Place(0, Order("", EntrySide(p).Opposite(), Market, p.qty, true))
  }

  /** What the strategy writes at one bar. */
  function Decision(p: Params, t: Task, bar: int): seq<Command<nat>> {
    if bar == t.startBar then [Entry(p)]
    else if bar == ExitBar(p, t) then [Exit(p)]
    else []
  }

  /** The exit bar is the earlier of the planned one and the last bar but one whose order can still fill. */
  lemma ExitBarMeans(p: Params, t: Task)
    ensures var extra := match p.extra case None => 0 case Some(e) => e;
            && ExitBar(p, t) <= t.endBar - 2 && ExitBar(p, t) <= t.startBar + p.hold + extra
            && (ExitBar(p, t) == t.endBar - 2 || ExitBar(p, t) == t.startBar + p.hold + extra)
  {
  }

  /** The entry buys for a positive direction and sells otherwise; the exit reverses it, reducing only. */
  lemma DecisionMeans(p: Params, t: Task, bar: int)
    ensures var cs := Decision(p, t, bar);
            if bar == t.startBar then
              && |cs| == 1 && cs[0].Place? && cs[0].symbol == 0 && cs[0].order.pricing.Market?
              && cs[0].order.qty == p.qty && !cs[0].order.reduceOnly && (cs[0].order.side.Buy? <==> p.direction > 0.0)
            else if bar == ExitBar(p, t) then
              && |cs| == 1 && cs[0].Place? && cs[0].symbol == 0 && cs[0].order.pricing.Market?
              && cs[0].order.qty == p.qty && cs[0].order.reduceOnly && (cs[0].order.side.Sell? <==> p.direction > 0.0)
            else cs == []
  {
  }

  method Commands(params: Params, task: Task, bar: int, writer: Writer) returns (exitBar: int)
    modifies writer
    ensures writer.commands == old(writer.commands) + Decision(params, task, bar)
    ensures exitBar == ExitBar(params, task)
  {
    var side := if params.direction > 0.0 then Buy else Sell;
    var hold := params.hold + (match params.extra case None => 0 case Some(e) => e);
    exitBar := if task.endBar - 2 <= task.startBar + hold then task.endBar - 2 else task.startBar + hold;
    if bar == task.startBar {
      writer.Market(0, side, params.qty);
    } else if bar == exitBar {
      writer.Market(0, if side == Buy then Sell else Buy, params.qty, true);
    }
  }

  class Strategy {
    const params: Params
    var task: Task

    constructor (params: Params, task: Task)
      ensures this.params == params && this.task == task
    {
      this.params, this.task := params, task;
    }

    method Reset(task: Task)
      modifies this
      ensures this.task == task
    {
      this.task := task;
    }

    method OnBarClose(barIndex: int, out: Writer)
      modifies out
      ensures out.commands == old(out.commands) + Decision(params, task, barIndex)
    {
      var _ := Commands(params, task, barIndex, out);
    }
  }

  /** The plan of one wake; a plan cannot name a negative bar, and building one that does raises. */
  function Plan(p: Params, t: Task, bar: int): Option<WakePlan> {
    if bar != t.startBar then Some(WakePlan(None))
    else if ExitBar(p, t) < 0 then None
    else Some(WakePlan(Some(ExitBar(p, t))))
  }

  /** At its start a candidate asks to be woken at its exit bar, later never again; a negative bar raises. */
  lemma PlanMeans(p: Params, t: Task, bar: int)
    ensures Plan(p, t, bar).None? <==> bar == t.startBar && ExitBar(p, t) < 0
    ensures Plan(p, t, bar).Some? ==>
              Plan(p, t, bar).value.nextBar == if bar == t.startBar then Some(ExitBar(p, t)) else None
  {
  }

  /** Of distinct identifiers, the next one is new to those already taken. */
  lemma PrefixGrows(ids: seq<nat>, row: nat)
    requires row < |ids| && forall j, k :: 0 <= j < k < |ids| ==> ids[j] != ids[k]
    ensures ids[row] !in ids[..row]
    ensures forall i :: i in ids[..row + 1] <==> i in ids[..row] || i == ids[row]
  {
    assert ids[..row + 1] == ids[..row] + [ids[row]];
  }

  class CandidateBatchStrategy {
    const params: seq<Params>
    const tasks: seq<Task>

    constructor (params: seq<Params>, tasks: seq<Task>)
      ensures this.params == params && this.tasks == tasks
    {
      this.params, this.tasks := params, tasks;
    }

    ghost predicate Raises(bar: int, i: nat) {
      i < |params| == |tasks| && Plan(params[i], tasks[i], bar).None?
    }

    /**
      None when a plan raises. The writers of the candidates up to and including the raising one have received
      their decisions by then, the later ones nothing.
     */
    method OnWakeBatch(bar: int, ids: seq<nat>, writers: seq<Writer>)
      returns (plans: Option<map<nat, WakePlan>>, ghost handled: nat)
      requires |params| == |tasks| == |writers|
      requires forall i :: i in ids ==> i < |writers|
      requires forall j, k :: 0 <= j < k < |ids| ==> ids[j] != ids[k]
      requires forall j, k :: 0 <= j < k < |writers| ==> writers[j] != writers[k]
      modifies set i | i in ids :: writers[i]
      ensures plans.None? <==> exists i :: i in ids && Raises(bar, i)
      ensures plans.Some? ==> plans.value.Keys == (set i | i in ids) && handled == |ids|
      ensures plans.Some? ==> forall i :: i in ids ==> Some(plans.value[i]) == Plan(params[i], tasks[i], bar)
      ensures plans.None? ==> 0 < handled <= |ids| && Raises(bar, ids[handled - 1])
                              && forall k :: 0 <= k < handled - 1 ==> !Raises(bar, ids[k])
      ensures forall i :: 0 <= i < |writers| ==>
                writers[i].commands == old(writers[i].commands)
                                       + if i in ids[..handled] then Decision(params[i], tasks[i], bar) else []
    {
      hide Decision;
      hide ExitBar;
      hide Plan;
      var made: map<nat, WakePlan> := map[];
      for row := 0 to |ids|
        invariant forall i :: i in made <==> i in ids[..row]
        invariant forall i :: i in made ==> i < |writers| && Plan(params[i], tasks[i], bar) == Some(made[i])
        invariant forall i :: 0 <= i < |writers| ==>
                    writers[i].commands == old(writers[i].commands)
                                           + if i in made then Decision(params[i], tasks[i], bar) else []
      {
        var i := ids[row];
        assert i in ids;
        PrefixGrows(ids, row);
        var exitBar := Commands(params[i], tasks[i], bar, writers[i]);
        PlanMeans(params[i], tasks[i], bar);
        if bar == tasks[i].startBar {
          if exitBar < 0 {
            assert forall k :: 0 <= k < row ==> ids[k] in ids[..row];
            return None, row + 1;
          }
          made := made[i := WakePlan(Some(exitBar))];
        } else {
          made := made[i := WakePlan(None)];
        }
      }
      assert ids[..|ids|] == ids;
      return Some(made), |ids|;
    }
  }

  // ---------------------------------------------------------------- the two drivers

  function Stamp(bar: int, cs: seq<Command<nat>>): seq<Stamped<nat>> {
    seq(|cs|, i requires 0 <= i < |cs| => Stamped(bar, cs[i]))
  }

  /** Calling the strategy on every bar from the task's start up to, not including, `upto`. */
  function EveryBar(p: Params, t: Task, upto: int): seq<Stamped<nat>>
    decreases upto - t.startBar
  {
    if upto <= t.startBar then [] else EveryBar(p, t, upto - 1) + Stamp(upto - 1, Decision(p, t, upto - 1))
  }

  /** One candidate of the sparse runner. */
  datatype Candidate = Candidate(next: Option<int>, failed: bool, trace: seq<Stamped<nat>>)

  /** A callback that raises ends the run of the whole batch. */
  datatype Batch = Running(candidates: seq<Candidate>) | Aborted

  predicate Woken(c: Candidate, bar: int) {
    !c.failed && c.next == Some(bar)
  }

  /**
    The runner refuses a plan that does not lie strictly ahead inside the market; it then drops
    the commands of that callback and stops calling the candidate.
   */
  function Advance(c: Candidate, plan: WakePlan, written: seq<Command<nat>>, bar: int, nBars: int): Candidate {
    if plan.nextBar.Some? && (plan.nextBar.value <= bar || nBars <= plan.nextBar.value) then c.(failed := true)
    else Candidate(plan.nextBar, c.failed, c.trace + Stamp(bar, written))
  }

  /** One bar of the batch: only woken candidates are called, all in one callback. */
  function BatchStep(ps: seq<Params>, t: Task, cs: seq<Candidate>, bar: int, nBars: int): (r: Batch)
    requires |ps| == |cs|
    ensures r.Running? ==> |r.candidates| == |cs|
  {
    if exists i :: 0 <= i < |cs| && Woken(cs[i], bar) && Plan(ps[i], t, bar).None? then Aborted
    else
      Running(seq(|cs|, i requires 0 <= i < |cs| =>
        if Woken(cs[i], bar) && Plan(ps[i], t, bar).Some?
        then Advance(cs[i], Plan(ps[i], t, bar).value, Decision(ps[i], t, bar), bar, nBars)
        else cs[i]))
  }

  /** The batch over the bars of one window up to, not including, `upto`; its first bar wakes every candidate. */
  function BatchRun(ps: seq<Params>, t: Task, upto: int, nBars: int): (r: Batch)
    ensures r.Running? ==> |r.candidates| == |ps|
    decreases upto - t.startBar
  {
    if upto <= t.startBar then Running(seq(|ps|, _ => Candidate(Some(t.startBar), false, [])))
    else
      match BatchRun(ps, t, upto - 1, nBars)
      case Aborted => Aborted
      case Running(cs) => BatchStep(ps, t, cs, upto - 1, nBars)
  }

  /** The task leaves room for an exit and the strategy holds for at least one bar. */
  predicate LeavesRoom(p: Params, t: Task) {
    t.startBar + 2 < t.endBar && 1 <= p.hold + (match p.extra case None => 0 case Some(e) => e)
  }

  lemma RoomMeansLaterExit(p: Params, t: Task)
    ensures LeavesRoom(p, t) <==> t.startBar < ExitBar(p, t)
    ensures LeavesRoom(p, t) ==> ExitBar(p, t) + 1 < t.endBar
  {
  }

  ghost predicate InMarket(t: Task, nBars: int) {
    0 <= t.startBar < t.endBar <= nBars
  }

  // ---------------------------------------------------------------- sparse refines every-bar

  /** Some candidate of the batch would have to name a negative exit bar. */
  ghost predicate NegativeExit(ps: seq<Params>, t: Task) {
    exists i :: 0 <= i < |ps| && ExitBar(ps[i], t) < 0
  }

  /** Where one candidate of a batch stands before bar `upto`. */
  ghost predicate Standing(c: Candidate, p: Params, t: Task, upto: int) {
    var start, exit := t.startBar, ExitBar(p, t);
    if upto <= start then c == Candidate(Some(start), false, [])
    else if exit <= start then c == Candidate(Some(start), true, [])
    else c == Candidate(if upto <= exit then Some(exit) else None, false, EveryBar(p, t, upto))
  }

  /** One bar for one candidate whose plan, if it is woken, does not raise. */
  lemma StandingAdvances(c: Candidate, p: Params, t: Task, bar: int, nBars: int)
    requires InMarket(t, nBars) && t.startBar <= bar && 0 <= ExitBar(p, t) && Standing(c, p, t, bar)
    ensures Plan(p, t, bar).Some?
    ensures Standing(if Woken(c, bar) then Advance(c, Plan(p, t, bar).value, Decision(p, t, bar), bar, nBars) else c,
                     p, t, bar + 1)
  {
    if bar == t.startBar {
      assert EveryBar(p, t, t.startBar) == [];
    }
    if t.startBar <= bar && !Woken(c, bar) {
      assert c.trace + Stamp(bar, []) == c.trace;
    }
  }

  /** The batch is aborted by its first callback exactly when a plan would name a negative bar. */
  lemma {:induction false} BatchStands(ps: seq<Params>, t: Task, upto: int, nBars: int)
    requires InMarket(t, nBars)
    ensures BatchRun(ps, t, upto, nBars).Aborted? <==> t.startBar < upto && NegativeExit(ps, t)
    ensures var r := BatchRun(ps, t, upto, nBars);
            r.Running? ==> forall i :: 0 <= i < |ps| ==> Standing(r.candidates[i], ps[i], t, upto)
    decreases upto - t.startBar
  {
    if t.startBar < upto {
      var bar := upto - 1;
      BatchStands(ps, t, bar, nBars);
      var before := BatchRun(ps, t, bar, nBars);
      if before.Running? {
        if bar == t.startBar {
          FirstCallback(ps, t, before.candidates, nBars);
        } else {
          LaterCallback(ps, t, before.candidates, bar, nBars);
        }
      }
    }
  }

  lemma FirstCallback(ps: seq<Params>, t: Task, cs: seq<Candidate>, nBars: int)
    requires InMarket(t, nBars) && |cs| == |ps|
    requires forall i :: 0 <= i < |ps| ==> Standing(cs[i], ps[i], t, t.startBar)
    ensures BatchStep(ps, t, cs, t.startBar, nBars).Aborted? <==> NegativeExit(ps, t)
    ensures var r := BatchStep(ps, t, cs, t.startBar, nBars);
            r.Running? ==> forall i :: 0 <= i < |ps| ==> Standing(r.candidates[i], ps[i], t, t.startBar + 1)
  {
    if i :| 0 <= i < |ps| && ExitBar(ps[i], t) < 0 {
      assert Woken(cs[i], t.startBar) && Plan(ps[i], t, t.startBar).None?;
    } else {
      hide ExitBar;
      AllAdvance(ps, t, cs, t.startBar, nBars);
    }
  }

  lemma LaterCallback(ps: seq<Params>, t: Task, cs: seq<Candidate>, bar: int, nBars: int)
    requires InMarket(t, nBars) && |cs| == |ps| && t.startBar < bar && !NegativeExit(ps, t)
    requires forall i :: 0 <= i < |ps| ==> Standing(cs[i], ps[i], t, bar)
    ensures var r := BatchStep(ps, t, cs, bar, nBars);
            r.Running? && forall i :: 0 <= i < |ps| ==> Standing(r.candidates[i], ps[i], t, bar + 1)
  {
    hide ExitBar;
    AllAdvance(ps, t, cs, bar, nBars);
  }

  lemma AllAdvance(ps: seq<Params>, t: Task, cs: seq<Candidate>, bar: int, nBars: int)
    requires InMarket(t, nBars) && |cs| == |ps| && t.startBar <= bar
    requires forall i :: 0 <= i < |ps| ==> 0 <= ExitBar(ps[i], t) && Standing(cs[i], ps[i], t, bar)
    ensures var r := BatchStep(ps, t, cs, bar, nBars);
            r.Running? && forall i :: 0 <= i < |ps| ==> Standing(r.candidates[i], ps[i], t, bar + 1)
  {
    hide Standing;
    hide ExitBar;
    hide Plan;
    hide Advance;
    hide Decision;
    hide Woken;
    forall i | 0 <= i < |ps|
      ensures Plan(ps[i], t, bar).Some?
      ensures var c := cs[i];
              Standing(if Woken(c, bar)
                       then Advance(c, Plan(ps[i], t, bar).value, Decision(ps[i], t, bar), bar, nBars) else c,
                       ps[i], t, bar + 1)
    {
      StandingAdvances(cs[i], ps[i], t, bar, nBars);
    }
  }

  /** The entry written at the start bar is in every every-bar trace. */
  lemma {:induction false} EveryBarEnters(p: Params, t: Task, upto: int)
    requires t.startBar < upto
    ensures |EveryBar(p, t, upto)| > 0 && EveryBar(p, t, upto)[0] == Stamped(t.startBar, Entry(p))
    decreases upto - t.startBar
  {
    if upto == t.startBar + 1 {
      assert EveryBar(p, t, t.startBar) == [];
    } else {
      EveryBarEnters(p, t, upto - 1);
    }
  }

  /** The every-bar trace: the entry at the start bar, and the exit at the exit bar if that comes later and in time. */
  lemma {:induction false} EveryBarTrace(p: Params, t: Task, upto: int)
    requires t.startBar < upto
    ensures EveryBar(p, t, upto)
            == [Stamped(t.startBar, Entry(p))]
               + if t.startBar < ExitBar(p, t) < upto then [Stamped(ExitBar(p, t), Exit(p))] else []
    decreases upto - t.startBar
  {
    var bar := upto - 1;
    if bar == t.startBar {
      assert EveryBar(p, t, bar) == [] && Stamp(bar, [Entry(p)]) == [Stamped(bar, Entry(p))];
    } else {
      EveryBarTrace(p, t, bar);
      assert Stamp(bar, []) == [] && Stamp(bar, [Exit(p)]) == [Stamped(bar, Exit(p))];
      hide ExitBar;
      hide Entry;
      hide Exit;
    }
  }

  /**
    For any batch over one window: the run completes and a candidate's sparse command trace equals its every-bar
    trace exactly when the window leaves that candidate room for an exit and no candidate of the batch would name a
    negative exit bar. In the second case the whole batch is aborted; in the first the runner refuses the plan of
    that candidate alone.
   */
  lemma SparseEqualsEveryBar(ps: seq<Params>, t: Task, nBars: int, i: nat)
    requires i < |ps| && InMarket(t, nBars)
    ensures var r := BatchRun(ps, t, t.endBar, nBars);
            && (r.Running? && r.candidates[i].trace == EveryBar(ps[i], t, t.endBar)
                <==> LeavesRoom(ps[i], t) && !NegativeExit(ps, t))
            && (r.Aborted? <==> NegativeExit(ps, t))
            && (r.Running? ==> (r.candidates[i].failed <==> !LeavesRoom(ps[i], t)))
  {
    RoomMeansLaterExit(ps[i], t);
    BatchStands(ps, t, t.endBar, nBars);
    EveryBarEnters(ps[i], t, t.endBar);
    hide BatchRun;
    hide ExitBar;
    hide LeavesRoom;
    hide NegativeExit;
    hide EveryBar;
  }

  // ---------------------------------------------------------------- flat before the end

  /**
    The account after the callback of bar `bar`: each bar first fills what is working, completely,
    at its open, then applies what the callback writes.
   */
  function WithFullFills(p: Params, t: Task, opens: int -> real, bar: int): Account
    requires forall b :: opens(b) > 0.0
    decreases bar - t.startBar
  {
    if bar < t.startBar then FLAT
    else
      var before := WithFullFills(p, t, opens, bar - 1);
      var pass := FullPass(before, opens(bar));
      var filled := if AllAllowed(before, pass) then AfterAll(before, pass) else before;
      ApplyAll(filled, 0, Decision(p, t, bar))
  }

  /** The position between entry and exit: long for a positive direction. */
  function Held(p: Params): real {
    if p.direction > 0.0 then p.qty else -p.qty
  }

  /** The effect of one bar's decision on an account with an empty book. */
  lemma Written(p: Params, t: Task, bar: int, a: Account)
    requires a.working == []
    ensures ApplyAll(a, 0, Decision(p, t, bar)) ==
              a.(working := if bar == t.startBar then [Entry(p).order]
                            else if bar == ExitBar(p, t) then [Exit(p).order]
                            else [])
  {
    var d: seq<Command<nat>> := Decision(p, t, bar);
    if d != [] {
      assert d[1..] == [];
      assert ApplyAll(a, 0, d) == ApplyAll(Apply(a, 0, d[0]), 0, []);
    }
  }

  lemma {:induction false} AccountAt(p: Params, t: Task, opens: int -> real, bar: int)
    requires forall b :: opens(b) > 0.0
    requires p.qty > 0.0 && t.startBar <= bar
    ensures var exit := ExitBar(p, t);
            WithFullFills(p, t, opens, bar) ==
              if bar == t.startBar then Account(0.0, [Entry(p).order])
              else if exit <= t.startBar || bar < exit then Account(Held(p), [])
              else if bar == exit then Account(Held(p), [Exit(p).order])
              else FLAT
    decreases bar - t.startBar
  {
    var before := WithFullFills(p, t, opens, bar - 1);
    if bar == t.startBar {
      OpenedOne(0.0, Entry(p).order, opens(bar));
      Written(p, t, bar, FLAT);
    } else {
      AccountAt(p, t, opens, bar - 1);
      Written(p, t, bar, FLAT);
      Written(p, t, bar, Account(Held(p), []));
      OpenedOne(0.0, Entry(p).order, opens(bar));
      OpenedOne(Held(p), Exit(p).order, opens(bar));
      OpenedOne(0.0, Exit(p).order, opens(bar));
    }
  }

  /** With full fills the task ends flat exactly when it leaves room, and then from the bar after its exit on. */
  lemma FlatBeforeEnd(p: Params, t: Task, opens: int -> real)
    requires forall b :: opens(b) > 0.0
    requires p.qty > 0.0 && t.startBar < t.endBar
    ensures WithFullFills(p, t, opens, t.endBar - 1) == FLAT <==> LeavesRoom(p, t)
    ensures LeavesRoom(p, t) ==>
              ExitBar(p, t) + 1 < t.endBar
              && forall bar :: ExitBar(p, t) < bar < t.endBar ==> WithFullFills(p, t, opens, bar) == FLAT
  {
    RoomMeansLaterExit(p, t);
    AccountAt(p, t, opens, t.endBar - 1);
    forall bar | t.startBar <= bar && ExitBar(p, t) < bar < t.endBar && t.startBar < ExitBar(p, t)
      ensures WithFullFills(p, t, opens, bar) == FLAT
    {
      AccountAt(p, t, opens, bar);
    }
  }

  // ---------------------------------------------------------------- arbitrary fills

  /**
    A run from the task's start with arbitrary fills: `books[k]` is the account after the callback of bar
    `startBar + k`, and `passes[k]` what the matcher does before the next callback.
   */
  ghost predicate Run(p: Params, t: Task, passes: seq<seq<Event>>, books: seq<Account>) {
    && |books| == |passes| + 1
    && books[0] == ApplyAll(FLAT, 0, Decision(p, t, t.startBar))
    && forall k :: 0 <= k < |passes| ==> Next(p, t, books[k], passes[k], t.startBar + k + 1, books[k + 1])
  }

  ghost predicate Next(p: Params, t: Task, a: Account, es: seq<Event>, bar: int, b: Account) {
    AllAllowed(a, es) && b == ApplyAll(AfterAll(a, es), 0, Decision(p, t, bar))
  }

  /** The decision of a later bar adds at most the reduce-only exit. */
  lemma WrittenLater(p: Params, t: Task, bar: int, a: Account)
    requires bar != t.startBar
    ensures ApplyAll(a, 0, Decision(p, t, bar))
            == if bar == ExitBar(p, t) then a.(working := a.working + [Exit(p).order]) else a
  {
    var d: seq<Command<nat>> := Decision(p, t, bar);
    if d != [] {
      assert d[1..] == [];
      assert ApplyAll(a, 0, d) == ApplyAll(Apply(a, 0, d[0]), 0, []);
    }
  }

  /** The exit neither adds to the exposure on the entry's side nor can open the other side. */
  lemma ExitKeepsOneSided(p: Params, a: Account)
    requires p.qty > 0.0 && OneSided(a, EntrySide(p), p.qty)
    ensures OneSided(a.(working := a.working + [Exit(p).order]), EntrySide(p), p.qty)
  {
    WorkingConcat(a.working, [Exit(p).order], EntrySide(p));
    assert [Exit(p).order][1..] == [];
  }

  lemma {:induction false} RunIsOneSided(p: Params, t: Task, passes: seq<seq<Event>>, books: seq<Account>, k: nat)
    requires p.qty > 0.0 && Run(p, t, passes, books) && k < |books|
    ensures OneSided(books[k], EntrySide(p), p.qty)
  {
    if k == 0 {
      Written(p, t, t.startBar, FLAT);
      assert [Entry(p).order][1..] == [];
      assert Working([Entry(p).order], EntrySide(p)) == p.qty;
    } else {
      RunIsOneSided(p, t, passes, books, k - 1);
      assert Next(p, t, books[k - 1], passes[k - 1], t.startBar + k, books[k]);
      var filled := AfterAll(books[k - 1], passes[k - 1]);
      PassKeepsOneSided(books[k - 1], passes[k - 1], EntrySide(p), p.qty);
      WrittenLater(p, t, t.startBar + k, filled);
      ExitKeepsOneSided(p, filled);
    }
  }

  /** At every moment of every run the position lies between 0 and the signed quantity, on the entry's side. */
  lemma HeldWithinQuantity(p: Params, t: Task, passes: seq<seq<Event>>, books: seq<Account>, k: nat, es: seq<Event>)
    requires p.qty > 0.0 && Run(p, t, passes, books) && k < |books| && AllAllowed(books[k], es)
    ensures 0.0 <= EntrySide(p).Signed(AfterAll(books[k], es).position) <= p.qty
    ensures Exposure(AfterAll(books[k], es), EntrySide(p)) <= p.qty
  {
    RunIsOneSided(p, t, passes, books, k);
    PassKeepsOneSided(books[k], es, EntrySide(p), p.qty);
  }

  /** Before the exit nothing works but what is left of the entry. */
  predicate Entering(p: Params, working: seq<Order>) {
    working == [] || (working == [Entry(p).order.(qty := working[0].qty)] && working[0].qty > 0.0)
  }

  lemma {:induction false} PassKeepsEntering(p: Params, a: Account, es: seq<Event>)
    requires Entering(p, a.working) && AllAllowed(a, es)
    ensures Entering(p, AfterAll(a, es).working)
    decreases |es|
  {
    if es == [] {
    } else {
      assert Removed(a.working, 0) == [];
      PassKeepsEntering(p, After(a, es[0]), es[1..]);
    }
  }

  lemma {:induction false} EnteringUntilExit(p: Params, t: Task, passes: seq<seq<Event>>, books: seq<Account>, k: nat)
    requires p.qty > 0.0 && Run(p, t, passes, books) && k < |books| && t.startBar + k < ExitBar(p, t)
    ensures Entering(p, books[k].working)
  {
    if k == 0 {
      Written(p, t, t.startBar, FLAT);
    } else {
      EnteringUntilExit(p, t, passes, books, k - 1);
      assert Next(p, t, books[k - 1], passes[k - 1], t.startBar + k, books[k]);
      PassKeepsEntering(p, books[k - 1], passes[k - 1]);
      WrittenLater(p, t, t.startBar + k, AfterAll(books[k - 1], passes[k - 1]));
    }
  }

  /** The account right after the exit callback: what is left of the entry, then the exit. */
  lemma AtExit(p: Params, t: Task, passes: seq<seq<Event>>, books: seq<Account>, x: nat)
    requires p.qty > 0.0 && Run(p, t, passes, books) && 0 < x < |books| && t.startBar + x == ExitBar(p, t)
    ensures |books[x].working| > 0
    ensures var entry := books[x].working[..|books[x].working| - 1];
            Entering(p, entry) && books[x].working == entry + [Exit(p).order]
    ensures OneSided(books[x], EntrySide(p), p.qty)
  {
    EnteringUntilExit(p, t, passes, books, x - 1);
    assert Next(p, t, books[x - 1], passes[x - 1], t.startBar + x, books[x]);
    PassKeepsEntering(p, books[x - 1], passes[x - 1]);
    var a := AfterAll(books[x - 1], passes[x - 1]);
    WrittenLater(p, t, t.startBar + x, a);
    assert (a.working + [Exit(p).order])[..|a.working|] == a.working;
    RunIsOneSided(p, t, passes, books, x);
  }

  ghost predicate ExitEnded(a: Account) {
    forall o :: o in a.working ==> !o.reduceOnly
  }

  /** Once the exit has ended, the account is flat, whatever was filled until then. */
  ghost predicate EndsFlat(a: Account) {
    forall es :: AllAllowed(a, es) && ExitEnded(AfterAll(a, es)) ==> AfterAll(a, es) == FLAT
  }

  lemma NothingLeft(a: Account, side: Side)
    requires ReducingOnly(a.working, side)
    ensures ExitEnded(a) ==> a.working == []
  {
    if a.working != [] {
      assert a.working[0] in a.working;
    }
  }

  lemma ExitAloneEndsFlat(p: Params, a: Account)
    requires OneSided(a, EntrySide(p), p.qty) && a.working == [Exit(p).order]
    ensures EndsFlat(a)
  {
    var side := EntrySide(p);
    WorkingNonNegative(a.working, side);
    assert Covers(a, side, a.working[0]);
    forall es | AllAllowed(a, es) && ExitEnded(AfterAll(a, es)) ensures AfterAll(a, es) == FLAT {
      PassKeepsCovered(a, es, side);
      NothingLeft(AfterAll(a, es), side);
    }
  }

  /** The exit can close everything held before the rest of the entry fills and opens the position again. */
  lemma ResidualReopens(p: Params, a: Account) returns (es: seq<Event>)
    requires OneSided(a, EntrySide(p), p.qty)
    requires |a.working| == 2 && Entering(p, [a.working[0]]) && a.working[1] == Exit(p).order
    ensures AllAllowed(a, es) && ExitEnded(AfterAll(a, es))
    ensures AfterAll(a, es) == Account(EntrySide(p).Signed(a.working[0].qty), [])
  {
    var side, e, x := EntrySide(p), a.working[0], a.working[1];
    assert e in a.working && x in a.working;
    var held := side.Signed(a.position);
    assert [e, x][1..] == [x] && [x][1..] == [];
    assert held <= p.qty by {
      WorkingNonNegative(a.working, side);
    }
    var first := if held > 0.0 then Fill(1, held, 1.0) else Drop(1);
    var b := After(a, first);
    assert Removed(a.working, 1) == [e];
    assert Allowed(a, first) && b == Account(0.0, [e]);
    var second := Fill(0, e.qty, 1.0);
    assert Removed([e], 0) == [];
    assert After(b, second) == Account(side.Signed(e.qty), []);
    OneEvent(b, second);
    es := [first, second];
    assert es[1..] == [second];
  }

  /**
    With arbitrary fills a task that leaves room ends flat once its exit has ended, in every continuation, if and
    only if nothing of the entry still works when the exit is written: the strategy does not cancel its entry.
   */
  lemma EndsFlatExactly(p: Params, t: Task, passes: seq<seq<Event>>, books: seq<Account>, x: nat)
    requires p.qty > 0.0 && Run(p, t, passes, books) && 0 < x < |books| && t.startBar + x == ExitBar(p, t)
    ensures EndsFlat(books[x]) <==> books[x].working == [Exit(p).order]
  {
    AtExit(p, t, passes, books, x);
    hide *;
    ExitExactly(p, books[x]);
  }

  lemma ExitExactly(p: Params, a: Account)
    requires OneSided(a, EntrySide(p), p.qty) && |a.working| > 0
    requires Entering(p, a.working[..|a.working| - 1])
    requires a.working == a.working[..|a.working| - 1] + [Exit(p).order]
    ensures EndsFlat(a) <==> a.working == [Exit(p).order]
  {
    hide AllAllowed;
    hide AfterAll;
    hide OneSided;
    var exit := Exit(p).order;
    hide Exit;
    if a.working == [exit] {
      ExitAloneEndsFlat(p, a);
    } else {
      assert [a.working[0]] == a.working[..1];
      var es := ResidualReopens(p, a);
      assert a.working[0].qty > 0.0;
      assert AfterAll(a, es).position != FLAT.position;
    }
  }

  /** After the exit bar nothing is written, so every later account is one pass away from that of the exit bar. */
  lemma {:induction false} NothingAfterExit(p: Params, t: Task, passes: seq<seq<Event>>, books: seq<Account>,
                                            x: nat, k: nat) returns (es: seq<Event>)
    requires Run(p, t, passes, books) && 0 < x <= k < |books| && t.startBar + x == ExitBar(p, t)
    ensures AllAllowed(books[x], es) && AfterAll(books[x], es) == books[k]
    decreases k
  {
    if k == x {
      es := [];
    } else {
      es := NothingAfterExit(p, t, passes, books, x, k - 1);
      assert Next(p, t, books[k - 1], passes[k - 1], t.startBar + k, books[k]);
      WrittenLater(p, t, t.startBar + k, AfterAll(books[k - 1], passes[k - 1]));
      PassConcat(books[x], es, passes[k - 1]);
      es := es + passes[k - 1];
    }
  }

  // ---------------------------------------------------------------- a task without room

  const BRIEF := Task(0, 2)
  const ONE_BAR := Params(1.0, 1, 1.0, None)

  /** Two bars leave no room: the sparse runner trades nothing, the every-bar callback enters and never exits. */
  lemma NoRoom(opens: int -> real)
    requires forall b :: opens(b) > 0.0
    ensures !LeavesRoom(ONE_BAR, BRIEF)
    ensures BatchRun([ONE_BAR], BRIEF, 2, 2) == Running([Candidate(Some(0), true, [])])
    ensures EveryBar(ONE_BAR, BRIEF, 2) == [Stamped(0, Entry(ONE_BAR))]
    ensures WithFullFills(ONE_BAR, BRIEF, opens, 1) == Account(1.0, [])
  {
    BatchStands([ONE_BAR], BRIEF, 2, 2);
    AccountAt(ONE_BAR, BRIEF, opens, 1);
    assert EveryBar(ONE_BAR, BRIEF, 0) == [];
    assert EveryBar(ONE_BAR, BRIEF, 1) == [] + Stamp(0, [Entry(ONE_BAR)]);
    assert Decision(ONE_BAR, BRIEF, 1) == [];
    var r := BatchRun([ONE_BAR], BRIEF, 2, 2);
    assert Standing(r.candidates[0], [ONE_BAR][0], BRIEF, 2);
  }

  // ---------------------------------------------------------------- a batch that aborts

  const TEN_BARS := Task(0, 10)
  const TWO_BARS := Params(1.0, 2, 1.0, None)
  const BACKWARDS := Params(1.0, -3, 1.0, None)

  /** A candidate that would leave at bar -3 takes a sound one down with it; alone that one trades as on every bar. */
  lemma OneNegativeExitAbortsAll()
    ensures LeavesRoom(TWO_BARS, TEN_BARS) && BatchRun([TWO_BARS, BACKWARDS], TEN_BARS, 10, 10).Aborted?
    ensures BatchRun([TWO_BARS], TEN_BARS, 10, 10).Running?
            && BatchRun([TWO_BARS], TEN_BARS, 10, 10).candidates[0].trace == EveryBar(TWO_BARS, TEN_BARS, 10)
    ensures BatchRun([ONE_BAR], Task(0, 1), 1, 1).Aborted?
  {
    assert ExitBar([ONE_BAR][0], Task(0, 1)) == -1;
    assert ExitBar([TWO_BARS, BACKWARDS][1], TEN_BARS) == -3;
    assert ExitBar([TWO_BARS][0], TEN_BARS) == 2;
    hide BatchRun;
    hide EveryBar;
    SparseEqualsEveryBar([TWO_BARS, BACKWARDS], TEN_BARS, 10, 0);
    SparseEqualsEveryBar([TWO_BARS], TEN_BARS, 10, 0);
    SparseEqualsEveryBar([ONE_BAR], Task(0, 1), 1, 0);
  }

  // ---------------------------------------------------------------- an entry that outlives its exit

  /** 0.4 of the entry fills before the exit bar; the rest still works when the exit is written. */
  lemma ResidualAtExit() returns (passes: seq<seq<Event>>, books: seq<Account>)
    ensures Run(ONE_BAR, TEN_BARS, passes, books) && |books| == 2
    ensures TEN_BARS.startBar + 1 == ExitBar(ONE_BAR, TEN_BARS) && !EndsFlat(books[1])
  {
    var entry, exit := Entry(ONE_BAR).order, Exit(ONE_BAR).order;
    var a, first := Account(0.0, [entry]), Fill(0, 0.4, 1.0);
    Written(ONE_BAR, TEN_BARS, 0, FLAT);
    OneEvent(a, first);
    var b := After(a, first);
    assert b == Account(0.4, [entry.(qty := 0.6)]);
    WrittenLater(ONE_BAR, TEN_BARS, 1, b);
    passes, books := [[first]], [a, Account(0.4, [entry.(qty := 0.6)] + [exit])];
    hide AllAllowed;
    hide AfterAll;
    assert Next(ONE_BAR, TEN_BARS, books[0], passes[0], 1, books[1]);
    assert Run(ONE_BAR, TEN_BARS, passes, books);
    assert |books[1].working| == 2;
    EndsFlatExactly(ONE_BAR, TEN_BARS, passes, books, 1);
  }
}
