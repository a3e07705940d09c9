/**
  Python call binding (Python Language Reference, section 6.3.4 "Calls", with the defaults of
  section 8.7 "Function definitions") and what an empty compatibility report means for callers.
*/
module CallBinding {
  import opened Shared
  import opened Signatures

  /** A call site after unpacking. Argument values are opaque, so integers stand for them. */
  datatype Call = Call(positional: seq<int>, keywords: map<string, int>)

  /** What a parameter is bound to. */
  datatype Slot = Given(value: int) | Defaulted(expression: string)

  predicate FilledByPosition(a: Arguments, c: Call, i: nat) {
    i < a.PositionalCount() && i < |c.positional|
  }

  predicate FilledByKeyword(r: Row, c: Call) {
    r.kind != PositionalOnly && r.name in c.keywords
  }

  ghost predicate TakesKeyword(a: Arguments, k: string)
    requires WellFormed(a)
  {
    exists r :: r in Parameters(a) && r.name == k && r.kind != PositionalOnly
  }

  /** The call raises no TypeError. */
  ghost predicate Accepts(a: Arguments, c: Call)
    requires WellFormed(a)
  {
    var rows := Parameters(a);
    // too many positional arguments
    && (|c.positional| <= a.PositionalCount() || a.vararg.Some?)
    // multiple values for one argument
    && (forall i :: 0 <= i < |rows| ==> !(FilledByPosition(a, c, i) && FilledByKeyword(rows[i], c)))
    // unexpected keyword, or a positional-only parameter passed by keyword
    && (forall k :: k in c.keywords ==> TakesKeyword(a, k) || a.kwarg.Some?)
    // missing argument
    && (forall i :: 0 <= i < |rows| ==>
          FilledByPosition(a, c, i) || FilledByKeyword(rows[i], c) || rows[i].default.Some?)
  }

  /** The value of the i-th parameter in an accepted call. */
  ghost function Bound(a: Arguments, c: Call, i: nat): Slot
    requires WellFormed(a) && Accepts(a, c) && i < |Parameters(a)|
  {
    var r := Parameters(a)[i];
    if FilledByPosition(a, c, i) then Given(c.positional[i])
    else if FilledByKeyword(r, c) then Given(c.keywords[r.name])
    else Defaulted(r.default.value)
  }

  /** The contents of `*args`. */
  ghost function ExtraPositional(a: Arguments, c: Call): seq<int> {
    if a.PositionalCount() < |c.positional| then c.positional[a.PositionalCount()..] else []
  }

  /** The contents of `**kwargs`. */
  ghost function ExtraKeywords(a: Arguments, c: Call): map<string, int>
    requires WellFormed(a)
  {
    map k | k in c.keywords && !TakesKeyword(a, k) :: c.keywords[k]
  }

  /** The new signature gained a parameter that both a position and a keyword can reach. */
  ghost predicate AddsPositionalOrKeyword(prior: Arguments, next: Arguments)
    requires WellFormed(prior) && WellFormed(next)
  {
    exists r :: r in Parameters(next) && r.name !in Names(Parameters(prior)) && r.kind == PositionalOrKeyword
  }

  ghost predicate BothVariadic(a: Arguments) {
    a.vararg.Some? && a.kwarg.Some?
  }

  // ---------------------------------------------------------------- alignment of the two signatures

  lemma RowName(a: Arguments, i: nat)
    requires WellFormed(a) && i < |Parameters(a)|
    ensures Names(Parameters(a))[i] == Parameters(a)[i].name
    ensures Parameters(a)[i].name in Names(Parameters(a))
  {
    assert Names(Parameters(a))[i] == Parameters(a)[i].name;
  }

  lemma SameName(a: Arguments, i: nat, j: nat)
    requires WellFormed(a) && i < |Parameters(a)| && j < |Parameters(a)|
    requires Parameters(a)[i].name == Parameters(a)[j].name
    ensures i == j
  {
    RowName(a, i);
    RowName(a, j);
  }

  /** Where an old parameter sits in a compatible new signature; positional ones do not move. */
  lemma Survives(prior: Arguments, next: Arguments, i: nat) returns (j: nat)
    requires WellFormed(prior) && WellFormed(next) && Compatible(prior, next)
    requires i < |Parameters(prior)|
    ensures j < |Parameters(next)| && Parameters(next)[j] == Parameters(prior)[i]
    ensures i < prior.PositionalCount() ==> j == i
    ensures i < prior.PositionalCount() <==> j < next.PositionalCount() && j < prior.PositionalCount()
    ensures prior.PositionalCount() <= i ==> next.PositionalCount() <= j
  {
    var before, after := Parameters(prior), Parameters(next);
    assert before[i] in after;
    j :| 0 <= j < |after| && after[j] == before[i];
    if i < prior.PositionalCount() {
      SameName(next, i, j);
    }
  }

  /** A new row whose name the old signature knows is the very same parameter. */
  lemma Origin(prior: Arguments, next: Arguments, j: nat) returns (i: nat)
    requires WellFormed(prior) && WellFormed(next) && Compatible(prior, next)
    requires j < |Parameters(next)| && Parameters(next)[j].name in Names(Parameters(prior))
    ensures i < |Parameters(prior)| && Parameters(next)[j] == Parameters(prior)[i]
    ensures i < prior.PositionalCount() ==> j == i
    ensures prior.PositionalCount() <= i ==> next.PositionalCount() <= j
  {
    var before := Parameters(prior);
    i :| 0 <= i < |Names(before)| && Names(before)[i] == Parameters(next)[j].name;
    var j' := Survives(prior, next, i);
    SameName(next, j, j');
  }

  lemma KeywordsStillTaken(prior: Arguments, next: Arguments, k: string)
    requires WellFormed(prior) && WellFormed(next) && Compatible(prior, next)
    requires TakesKeyword(prior, k)
    ensures TakesKeyword(next, k)
  {
    var r :| r in Parameters(prior) && r.name == k && r.kind != PositionalOnly;
    assert r in Parameters(next);
  }

  /** Only an added parameter can be reached by a keyword the old signature did not take. */
  lemma NewlyTakenIsAdded(prior: Arguments, next: Arguments, r: Row)
    requires WellFormed(prior) && WellFormed(next) && Compatible(prior, next)
    requires r in Parameters(next) && r.kind != PositionalOnly && !TakesKeyword(prior, r.name)
    ensures r.name !in Names(Parameters(prior))
  {
    var j :| 0 <= j < |Parameters(next)| && Parameters(next)[j] == r;
    if r.name in Names(Parameters(prior)) {
      var i := Origin(prior, next, j);
    }
  }

  // ---------------------------------------------------------------- main results

  /**
    The one way a compatible change can reject an old call: a positional value and a keyword
    that used to go to `*args` and `**kwargs` now meet at the same added parameter.
   */
  lemma RejectionNeedsBothVariadics(prior: Arguments, next: Arguments, c: Call)
    requires WellFormed(prior) && WellFormed(next) && Compatible(prior, next)
    requires Accepts(prior, c)
    ensures Accepts(next, c) || (BothVariadic(prior) && AddsPositionalOrKeyword(prior, next))
  {
    var before, after := Parameters(prior), Parameters(next);
    if !(BothVariadic(prior) && AddsPositionalOrKeyword(prior, next)) {
      forall j | 0 <= j < |after|
        ensures !(FilledByPosition(next, c, j) && FilledByKeyword(after[j], c))
        ensures FilledByPosition(next, c, j) || FilledByKeyword(after[j], c) || after[j].default.Some?
      {
        if after[j].name in Names(before) {
          var i := Origin(prior, next, j);
        } else if FilledByPosition(next, c, j) && FilledByKeyword(after[j], c) {
          AddedTwice(prior, next, c, j);
        }
      }
      forall k | k in c.keywords
        ensures TakesKeyword(next, k) || next.kwarg.Some?
      {
        if TakesKeyword(prior, k) {
          KeywordsStillTaken(prior, next, k);
        }
      }
    }
  }

  /** The values 0, 1, ... by position and -1 for every keyword: no position shares its value with anything. */
  ghost function Spread(count: nat, names: set<string>): Call {
    Call(seq(count, i => i), map k | k in names :: -1)
  }

  ghost function KeywordOnlyNames(a: Arguments): set<string> {
    set n | n in a.kwonly
  }

  lemma KeywordOnlyRow(a: Arguments, i: nat)
    requires WellFormed(a) && i < |Parameters(a)|
    ensures Parameters(a)[i].name in KeywordOnlyNames(a) <==> a.PositionalCount() <= i
  {
    RowName(a, i);
    if i < a.PositionalCount() {
      if Parameters(a)[i].name in a.kwonly {
        var m :| 0 <= m < |a.kwonly| && a.kwonly[m] == Parameters(a)[i].name;
        SameName(a, i, a.PositionalCount() + m);
      }
    } else {
      assert Parameters(a)[i].name == a.kwonly[i - a.PositionalCount()];
    }
  }

  /** Every positional parameter by position, every keyword-only one by keyword, and more where variadics allow. */
  lemma FullCallAccepted(a: Arguments, count: nat, extra: set<string>)
    requires WellFormed(a) && a.PositionalCount() <= count
    requires a.PositionalCount() < count ==> a.vararg.Some?
    requires extra != {} ==> a.kwarg.Some?
    requires forall n :: n in extra ==> n !in Names(Parameters(a))
    ensures Accepts(a, Spread(count, KeywordOnlyNames(a) + extra))
  {
    var rows, c := Parameters(a), Spread(count, KeywordOnlyNames(a) + extra);
    forall i | 0 <= i < |rows|
      ensures FilledByPosition(a, c, i) != FilledByKeyword(rows[i], c)
    {
      RowName(a, i);
      KeywordOnlyRow(a, i);
    }
    forall k | k in c.keywords ensures TakesKeyword(a, k) || a.kwarg.Some? {
      if k in KeywordOnlyNames(a) {
        var m :| 0 <= m < |a.kwonly| && a.kwonly[m] == k;
        assert Parameters(a)[a.PositionalCount() + m].name == k;
      }
    }
  }

  /** A call of `f(*args, **kwargs)` shape that an added positional-or-keyword parameter breaks. */
  lemma CollidingCall(prior: Arguments, next: Arguments) returns (c: Call)
    requires WellFormed(prior) && WellFormed(next) && Compatible(prior, next)
    requires BothVariadic(prior) && AddsPositionalOrKeyword(prior, next)
    ensures Accepts(prior, c) && !Accepts(next, c)
  {
    c := AddedCollides(prior, next);
  }

  /**
    Exactly when an empty report keeps every old caller working: unless the old signature
    takes both `*args` and `**kwargs` and the new one adds a positional-or-keyword parameter.
   */
  lemma AcceptanceExactly(prior: Arguments, next: Arguments)
    requires WellFormed(prior) && WellFormed(next) && Compatible(prior, next)
    ensures (forall c :: Accepts(prior, c) ==> Accepts(next, c))
            <==> !(BothVariadic(prior) && AddsPositionalOrKeyword(prior, next))
  {
    if BothVariadic(prior) && AddsPositionalOrKeyword(prior, next) {
      var c := CollidingCall(prior, next);
    } else {
      forall c | Accepts(prior, c) ensures Accepts(next, c) {
        RejectionNeedsBothVariadics(prior, next, c);
      }
    }
  }

  /** The i-th old parameter receives the same value under both signatures. */
  ghost predicate KeepsValue(prior: Arguments, next: Arguments, c: Call, i: nat)
    requires WellFormed(prior) && WellFormed(next) && Accepts(prior, c) && Accepts(next, c)
    requires i < |Parameters(prior)|
  {
    exists j :: 0 <= j < |Parameters(next)| && Parameters(next)[j] == Parameters(prior)[i]
                && Bound(next, c, j) == Bound(prior, c, i)
  }

  /** Whatever is still accepted means the same: each old parameter receives the same value. */
  lemma OldParametersKeepTheirValues(prior: Arguments, next: Arguments, c: Call, i: nat)
    requires WellFormed(prior) && WellFormed(next) && Compatible(prior, next)
    requires Accepts(prior, c) && Accepts(next, c) && i < |Parameters(prior)|
    ensures KeepsValue(prior, next, c, i)
  {
    var j := Survives(prior, next, i);
  }

  /**
    Soundness for signatures without variadics: an old call binds, every old parameter gets the
    same value, every added parameter gets its default, and nothing spills over.
   */
  lemma Soundness(prior: Arguments, next: Arguments, c: Call)
    requires WellFormed(prior) && WellFormed(next) && Compatible(prior, next)
    requires prior.vararg.None? && prior.kwarg.None? && Accepts(prior, c)
    ensures Accepts(next, c)
    ensures forall i :: 0 <= i < |Parameters(prior)| ==> KeepsValue(prior, next, c, i)
    ensures forall j :: 0 <= j < |Parameters(next)| && Parameters(next)[j].name !in Names(Parameters(prior)) ==>
              && Parameters(next)[j].default.Some?
              && Bound(next, c, j) == Defaulted(Parameters(next)[j].default.value)
    ensures ExtraPositional(next, c) == [] && ExtraKeywords(next, c) == map[]
  {
    RejectionNeedsBothVariadics(prior, next, c);
    hide Compatible;
    hide KeepsValue;
    forall i | 0 <= i < |Parameters(prior)| ensures KeepsValue(prior, next, c, i) {
      OldParametersKeepTheirValues(prior, next, c, i);
    }
    forall j | 0 <= j < |Parameters(next)| && Parameters(next)[j].name !in Names(Parameters(prior))
      ensures Parameters(next)[j].default.Some?
      ensures Bound(next, c, j) == Defaulted(Parameters(next)[j].default.value)
    {
      AddedTakesDefault(prior, next, c, j);
    }
    NothingSpills(prior, next, c);
  }

  lemma AddedTakesDefault(prior: Arguments, next: Arguments, c: Call, j: nat)
    requires WellFormed(prior) && WellFormed(next) && Compatible(prior, next)
    requires prior.vararg.None? && prior.kwarg.None? && Accepts(prior, c) && Accepts(next, c)
    requires j < |Parameters(next)| && Parameters(next)[j].name !in Names(Parameters(prior))
    ensures Parameters(next)[j].default.Some?
    ensures Bound(next, c, j) == Defaulted(Parameters(next)[j].default.value)
  {
    var before, r := Parameters(prior), Parameters(next)[j];
    assert r in Parameters(next);
    if j < prior.PositionalCount() {
      RowName(prior, j);
    }
    if FilledByKeyword(r, c) {
      assert TakesKeyword(prior, r.name);
      var q :| q in before && q.name == r.name && q.kind != PositionalOnly;
      var i :| 0 <= i < |before| && before[i] == q;
      RowName(prior, i);
    }
  }

  lemma NothingSpills(prior: Arguments, next: Arguments, c: Call)
    requires WellFormed(prior) && WellFormed(next) && Compatible(prior, next)
    requires prior.vararg.None? && prior.kwarg.None? && Accepts(prior, c)
    ensures ExtraPositional(next, c) == [] && ExtraKeywords(next, c) == map[]
  {
    forall k | k in c.keywords ensures TakesKeyword(next, k) {
      KeywordsStillTaken(prior, next, k);
    }
  }

  /**
    Conservation of variadic arguments in a call both signatures accept: what leaves `*args` is
    exactly what the added positional parameters receive, and what leaves `**kwargs` is exactly
    what added parameters receive by keyword.
   */
  lemma VariadicsAreAbsorbed(prior: Arguments, next: Arguments, c: Call)
    requires WellFormed(prior) && WellFormed(next) && Compatible(prior, next)
    requires Accepts(prior, c) && Accepts(next, c)
    ensures |ExtraPositional(next, c)| <= |ExtraPositional(prior, c)|
    ensures var absorbed := |ExtraPositional(prior, c)| - |ExtraPositional(next, c)|;
            && ExtraPositional(prior, c)[absorbed..] == ExtraPositional(next, c)
            && forall i :: 0 <= i < absorbed ==>
                 && prior.PositionalCount() + i < next.PositionalCount()
                 && Bound(next, c, prior.PositionalCount() + i) == Given(ExtraPositional(prior, c)[i])
    ensures ExtraKeywords(next, c).Keys <= ExtraKeywords(prior, c).Keys
    ensures forall k :: k in ExtraKeywords(next, c) ==> ExtraKeywords(next, c)[k] == ExtraKeywords(prior, c)[k]
    ensures forall k :: k in ExtraKeywords(prior, c).Keys - ExtraKeywords(next, c).Keys ==>
              exists j :: 0 <= j < |Parameters(next)| && Parameters(next)[j].name == k
                          && k !in Names(Parameters(prior)) && Bound(next, c, j) == Given(ExtraKeywords(prior, c)[k])
  {
    forall k | k in ExtraKeywords(next, c) ensures k in ExtraKeywords(prior, c) {
      if TakesKeyword(prior, k) {
        KeywordsStillTaken(prior, next, k);
      }
    }
    forall k | k in ExtraKeywords(prior, c).Keys - ExtraKeywords(next, c).Keys
      ensures exists j :: 0 <= j < |Parameters(next)| && Parameters(next)[j].name == k
                          && k !in Names(Parameters(prior)) && Bound(next, c, j) == Given(ExtraKeywords(prior, c)[k])
    {
      assert TakesKeyword(next, k);
      var r :| r in Parameters(next) && r.name == k && r.kind != PositionalOnly;
      NewlyTakenIsAdded(prior, next, r);
      var j :| 0 <= j < |Parameters(next)| && Parameters(next)[j] == r;
      assert FilledByKeyword(r, c);
    }
  }

  // ---------------------------------------------------------------- which findings break a caller

  /** The i-th old parameter receives the same value in the new signature, where it may have changed its row. */
  ghost predicate SameByName(prior: Arguments, next: Arguments, c: Call, i: nat)
    requires WellFormed(prior) && WellFormed(next) && Accepts(prior, c) && Accepts(next, c)
    requires i < |Parameters(prior)|
  {
    exists j :: 0 <= j < |Parameters(next)| && Parameters(next)[j].name == Parameters(prior)[i].name
                && Bound(next, c, j) == Bound(prior, c, i)
  }

  /** The call still binds and every old parameter receives the value it received before. */
  ghost predicate Unbroken(prior: Arguments, next: Arguments, c: Call)
    requires WellFormed(prior) && WellFormed(next) && Accepts(prior, c)
  {
    Accepts(next, c) && forall i :: 0 <= i < |Parameters(prior)| ==> SameByName(prior, next, c, i)
  }

  ghost predicate NoCallBreaks(prior: Arguments, next: Arguments)
    requires WellFormed(prior) && WellFormed(next)
  {
    forall c :: Accepts(prior, c) ==> Unbroken(prior, next, c)
  }

  /** `q` can be passed in every way `r` could, and stands for the same value when left out. */
  predicate Serves(r: Row, q: Row) {
    && q.name == r.name
    && (match r.kind
        case PositionalOnly => !q.kind.KeywordOnly?
        case PositionalOrKeyword => q.kind.PositionalOrKeyword?
        case KeywordOnly => !q.kind.PositionalOnly?)
    && (r.default.Some? ==> q.default == r.default)
  }

  ghost predicate KeepsPrefix(prior: Arguments, next: Arguments)
    requires WellFormed(prior) && WellFormed(next)
  {
    && prior.PositionalCount() <= next.PositionalCount()
    && (forall i :: 0 <= i < prior.PositionalCount() ==> Parameters(next)[i].name == Parameters(prior)[i].name)
  }

  ghost predicate IsServed(r: Row, next: Arguments)
    requires WellFormed(next)
  {
    exists j :: 0 <= j < |Parameters(next)| && Serves(r, Parameters(next)[j])
  }

  ghost predicate KeepsRows(prior: Arguments, next: Arguments)
    requires WellFormed(prior) && WellFormed(next)
  {
    forall r :: r in Parameters(prior) ==> IsServed(r, next)
  }

  ghost predicate AddsOptional(prior: Arguments, next: Arguments)
    requires WellFormed(prior) && WellFormed(next)
  {
    forall q :: q in Parameters(next) && q.name !in Names(Parameters(prior)) ==> q.default.Some?
  }

  /** What callers need, where the report demands that every row stay the same and every variadic keep its name. */
  ghost predicate Harmless(prior: Arguments, next: Arguments)
    requires WellFormed(prior) && WellFormed(next)
  {
    && KeepsPrefix(prior, next) && KeepsRows(prior, next) && AddsOptional(prior, next)
    && (prior.vararg.Some? ==> next.vararg.Some?)
    && (prior.kwarg.Some? ==> next.kwarg.Some?)
  }

  /** A positional value of a spread call arrives at its own position only. */
  lemma PositionKept(prior: Arguments, next: Arguments, i: nat)
    requires WellFormed(prior) && WellFormed(next) && NoCallBreaks(prior, next) && i < prior.PositionalCount()
    ensures i < next.PositionalCount() && Parameters(next)[i].name == Parameters(prior)[i].name
  {
    var c := Spread(prior.PositionalCount(), KeywordOnlyNames(prior) + {});
    FullCallAccepted(prior, prior.PositionalCount(), {});
    assert Unbroken(prior, next, c);
    hide NoCallBreaks;
    assert Bound(prior, c, i) == Given(i);
    assert SameByName(prior, next, c, i);
    var j :| 0 <= j < |Parameters(next)| && Parameters(next)[j].name == Parameters(prior)[i].name
             && Bound(next, c, j) == Given(i);
    hide Accepts;
  }

  lemma AddedIsOptional(prior: Arguments, next: Arguments, j: nat)
    requires WellFormed(prior) && WellFormed(next) && NoCallBreaks(prior, next)
    requires j < |Parameters(next)| && Parameters(next)[j].name !in Names(Parameters(prior))
    ensures Parameters(next)[j].default.Some?
  {
    var c := Spread(prior.PositionalCount(), KeywordOnlyNames(prior) + {});
    FullCallAccepted(prior, prior.PositionalCount(), {});
    assert Unbroken(prior, next, c);
    if j < prior.PositionalCount() {
      PositionKept(prior, next, j);
      RowName(prior, j);
    }
    hide NoCallBreaks;
    hide Unbroken;
  }

  lemma PrefixKept(prior: Arguments, next: Arguments)
    requires WellFormed(prior) && WellFormed(next) && NoCallBreaks(prior, next)
    ensures KeepsPrefix(prior, next) && AddsOptional(prior, next)
  {
    hide NoCallBreaks;
    if prior.PositionalCount() > 0 {
      PositionKept(prior, next, prior.PositionalCount() - 1);
    }
    forall i | 0 <= i < prior.PositionalCount()
      ensures i < next.PositionalCount() && Parameters(next)[i].name == Parameters(prior)[i].name
    {
      PositionKept(prior, next, i);
    }
    forall q | q in Parameters(next) && q.name !in Names(Parameters(prior)) ensures q.default.Some? {
      var j :| 0 <= j < |Parameters(next)| && Parameters(next)[j] == q;
      AddedIsOptional(prior, next, j);
    }
  }

  lemma VarargKept(prior: Arguments, next: Arguments)
    requires WellFormed(prior) && WellFormed(next) && NoCallBreaks(prior, next) && prior.vararg.Some?
    ensures next.vararg.Some?
  {
    var count := prior.PositionalCount() + next.PositionalCount() + 1;
    FullCallAccepted(prior, count, {});
    assert Unbroken(prior, next, Spread(count, KeywordOnlyNames(prior) + {}));
  }

  /** A name longer than every parameter of a signature. */
  lemma {:induction false} FreshName(rows: seq<Row>) returns (name: string)
    ensures forall r :: r in rows ==> |r.name| < |name|
  {
    if rows == [] {
      name := "";
    } else {
      var rest := FreshName(rows[1..]);
      name := rest + rows[0].name + "_";
    }
  }

  lemma KwargKept(prior: Arguments, next: Arguments)
    requires WellFormed(prior) && WellFormed(next) && NoCallBreaks(prior, next) && prior.kwarg.Some?
    ensures next.kwarg.Some?
  {
    var name := FreshName(Parameters(prior) + Parameters(next));
    forall r | r in Parameters(prior) || r in Parameters(next) ensures r.name != name {
      assert r in Parameters(prior) + Parameters(next);
    }
    assert name !in Names(Parameters(prior));
    FullCallAccepted(prior, prior.PositionalCount(), {name});
    var c := Spread(prior.PositionalCount(), KeywordOnlyNames(prior) + {name});
    assert Unbroken(prior, next, c);
    assert name in c.keywords;
  }

  /** The names of the positional parameters from the i-th on. */
  ghost function NamesFrom(a: Arguments, i: nat): set<string>
    requires WellFormed(a) && i <= a.PositionalCount()
  {
    set k | i <= k < a.PositionalCount() :: Parameters(a)[k].name
  }

  /** The first `i` parameters by position and all others by keyword. */
  lemma KeywordCallAccepted(a: Arguments, i: nat)
    requires WellFormed(a) && i < a.PositionalCount() && Parameters(a)[i].kind == PositionalOrKeyword
    ensures Accepts(a, Spread(i, KeywordOnlyNames(a) + NamesFrom(a, i)))
  {
    var rows, c := Parameters(a), Spread(i, KeywordOnlyNames(a) + NamesFrom(a, i));
    forall k | 0 <= k < |rows|
      ensures FilledByPosition(a, c, k) != FilledByKeyword(rows[k], c)
    {
      KeywordOnlyRow(a, k);
      if rows[k].name in NamesFrom(a, i) {
        var m :| i <= m < a.PositionalCount() && rows[m].name == rows[k].name;
        SameName(a, k, m);
      }
    }
    forall n | n in c.keywords ensures TakesKeyword(a, n) {
      if n in KeywordOnlyNames(a) {
        var m :| 0 <= m < |a.kwonly| && a.kwonly[m] == n;
        assert rows[a.PositionalCount() + m].name == n;
      } else {
        var m :| i <= m < a.PositionalCount() && rows[m].name == n;
        assert rows[m].kind == PositionalOrKeyword;
      }
    }
  }

  /** Everything but one optional keyword-only parameter, or but the positional ones from an optional one on. */
  lemma ShortCallAccepted(a: Arguments, i: nat)
    requires WellFormed(a) && i < |Parameters(a)| && Parameters(a)[i].default.Some?
    ensures Accepts(a, Spread(if i < a.PositionalCount() then i else a.PositionalCount(),
                              KeywordOnlyNames(a) - {Parameters(a)[i].name}))
  {
    var rows := Parameters(a);
    var c := Spread(if i < a.PositionalCount() then i else a.PositionalCount(), KeywordOnlyNames(a) - {rows[i].name});
    forall k | 0 <= k < |rows|
      ensures !(FilledByPosition(a, c, k) && FilledByKeyword(rows[k], c))
      ensures FilledByPosition(a, c, k) || FilledByKeyword(rows[k], c) || rows[k].default.Some?
    {
      KeywordOnlyRow(a, k);
      if rows[k].name == rows[i].name {
        SameName(a, k, i);
      }
    }
    forall n | n in c.keywords ensures TakesKeyword(a, n) {
      var m :| 0 <= m < |a.kwonly| && a.kwonly[m] == n;
      assert rows[a.PositionalCount() + m].name == n;
    }
  }

  /** Each way of passing an old parameter, and leaving it out, is tried by one call. */
  lemma RowKept(prior: Arguments, next: Arguments, i: nat) returns (j: nat)
    requires WellFormed(prior) && WellFormed(next) && NoCallBreaks(prior, next) && i < |Parameters(prior)|
    ensures j < |Parameters(next)| && Serves(Parameters(prior)[i], Parameters(next)[j])
  {
    PrefixKept(prior, next);
    var r := Parameters(prior)[i];
    j := RowPassed(prior, next, i);
    if r.kind == PositionalOrKeyword {
      var k := RowByKeyword(prior, next, i);
      SameName(next, j, k);
    }
    if r.default.Some? {
      var k := RowLeftOut(prior, next, i);
      SameName(next, j, k);
    }
  }

  lemma RowPassed(prior: Arguments, next: Arguments, i: nat) returns (j: nat)
    requires WellFormed(prior) && WellFormed(next) && NoCallBreaks(prior, next) && i < |Parameters(prior)|
    ensures j < |Parameters(next)| && Parameters(next)[j].name == Parameters(prior)[i].name
    ensures i < prior.PositionalCount() ==> Parameters(next)[j].kind != KeywordOnly
    ensures prior.PositionalCount() <= i ==> Parameters(next)[j].kind != PositionalOnly
  {
    var count := prior.PositionalCount();
    var c := Spread(count, KeywordOnlyNames(prior) + {});
    FullCallAccepted(prior, count, {});
    assert Unbroken(prior, next, c);
    KeywordOnlyRow(prior, i);
    assert SameByName(prior, next, c, i);
    j :| 0 <= j < |Parameters(next)| && Parameters(next)[j].name == Parameters(prior)[i].name
         && Bound(next, c, j) == Bound(prior, c, i);
  }

  lemma RowByKeyword(prior: Arguments, next: Arguments, i: nat) returns (j: nat)
    requires WellFormed(prior) && WellFormed(next) && NoCallBreaks(prior, next)
    requires i < |Parameters(prior)| && Parameters(prior)[i].kind == PositionalOrKeyword
    ensures j < |Parameters(next)| && Parameters(next)[j].name == Parameters(prior)[i].name
    ensures Parameters(next)[j].kind != PositionalOnly
  {
    var c := Spread(i, KeywordOnlyNames(prior) + NamesFrom(prior, i));
    KeywordCallAccepted(prior, i);
    assert Unbroken(prior, next, c);
    assert SameByName(prior, next, c, i);
    assert Parameters(prior)[i].name in NamesFrom(prior, i);
    j :| 0 <= j < |Parameters(next)| && Parameters(next)[j].name == Parameters(prior)[i].name
         && Bound(next, c, j) == Bound(prior, c, i);
  }

  lemma RowLeftOut(prior: Arguments, next: Arguments, i: nat) returns (j: nat)
    requires WellFormed(prior) && WellFormed(next) && NoCallBreaks(prior, next)
    requires i < |Parameters(prior)| && Parameters(prior)[i].default.Some?
    ensures j < |Parameters(next)| && Parameters(next)[j].name == Parameters(prior)[i].name
    ensures Parameters(next)[j].default == Parameters(prior)[i].default
  {
    var c := Spread(if i < prior.PositionalCount() then i else prior.PositionalCount(),
                    KeywordOnlyNames(prior) - {Parameters(prior)[i].name});
    ShortCallAccepted(prior, i);
    assert Unbroken(prior, next, c);
    KeywordOnlyRow(prior, i);
    assert SameByName(prior, next, c, i);
    j :| 0 <= j < |Parameters(next)| && Parameters(next)[j].name == Parameters(prior)[i].name
         && Bound(next, c, j) == Bound(prior, c, i);
  }

  lemma RowsKept(prior: Arguments, next: Arguments)
    requires WellFormed(prior) && WellFormed(next) && NoCallBreaks(prior, next)
    ensures KeepsRows(prior, next)
  {
    forall r | r in Parameters(prior) ensures IsServed(r, next) {
      var i :| 0 <= i < |Parameters(prior)| && Parameters(prior)[i] == r;
      var j := RowKept(prior, next, i);
    }
  }

  /** Whatever is not harmless breaks some caller: a call that stops binding or changes an old parameter's value. */
  lemma HarmBreaksACall(prior: Arguments, next: Arguments)
    requires WellFormed(prior) && WellFormed(next) && !Harmless(prior, next)
    ensures exists c :: Accepts(prior, c) && !Unbroken(prior, next, c)
  {
    if NoCallBreaks(prior, next) {
      PrefixKept(prior, next);
      RowsKept(prior, next);
      if prior.vararg.Some? {
        VarargKept(prior, next);
      }
      if prior.kwarg.Some? {
        KwargKept(prior, next);
      }
    }
  }

  /** Where an old parameter sits in a harmless new signature. */
  lemma Served(prior: Arguments, next: Arguments, i: nat) returns (j: nat)
    requires WellFormed(prior) && WellFormed(next) && Harmless(prior, next) && i < |Parameters(prior)|
    ensures j < |Parameters(next)| && Serves(Parameters(prior)[i], Parameters(next)[j])
    ensures i < prior.PositionalCount() ==> j == i
    ensures prior.PositionalCount() <= i ==> prior.PositionalCount() <= j
  {
    assert IsServed(Parameters(prior)[i], next);
    j :| 0 <= j < |Parameters(next)| && Serves(Parameters(prior)[i], Parameters(next)[j]);
    if i < prior.PositionalCount() {
      SameName(next, i, j);
    } else if j < prior.PositionalCount() {
      SameName(prior, i, j);
    }
  }

  /** Without `**kwargs` no keyword of an accepted call bears the name of a positional-only parameter. */
  lemma KeywordNamesARow(a: Arguments, c: Call, i: nat)
    requires WellFormed(a) && a.kwarg.None? && Accepts(a, c) && i < |Parameters(a)|
    ensures Parameters(a)[i].name in c.keywords ==> FilledByKeyword(Parameters(a)[i], c)
  {
    if Parameters(a)[i].name in c.keywords {
      var r :| r in Parameters(a) && r.name == Parameters(a)[i].name && r.kind != PositionalOnly;
      var k :| 0 <= k < |Parameters(a)| && Parameters(a)[k] == r;
      SameName(a, i, k);
    }
  }

  /** A value that used to go to `*args` or `**kwargs` can meet another one at a parameter that now takes both. */
  ghost predicate Collides(prior: Arguments, next: Arguments)
    requires WellFormed(prior) && WellFormed(next)
  {
    || (BothVariadic(prior) && AddsPositionalOrKeyword(prior, next))
    || (prior.kwarg.Some? && Opens(prior, next, PositionalOnly))
    || (prior.vararg.Some? && Opens(prior, next, KeywordOnly))
  }

  /** A parameter of the given kind became reachable both by position and by keyword. */
  ghost predicate Opens(prior: Arguments, next: Arguments, kind: Kind)
    requires WellFormed(prior) && WellFormed(next)
  {
    exists r, q :: r in Parameters(prior) && q in Parameters(next) && q.name == r.name
                   && r.kind == kind && q.kind == PositionalOrKeyword
  }

  /** A parameter that keeps its way of being reached, as far as `**kwargs` or `*args` make a difference. */
  lemma NotOpened(prior: Arguments, next: Arguments, i: nat, j: nat)
    requires WellFormed(prior) && WellFormed(next) && !Collides(prior, next)
    requires i < |Parameters(prior)| && j < |Parameters(next)|
    requires Parameters(next)[j].name == Parameters(prior)[i].name && Parameters(next)[j].kind == PositionalOrKeyword
    ensures Parameters(prior)[i].kind == PositionalOnly ==> prior.kwarg.None?
    ensures Parameters(prior)[i].kind == KeywordOnly ==> prior.vararg.None?
  {
    assert Parameters(prior)[i] in Parameters(prior) && Parameters(next)[j] in Parameters(next);
  }

  /** No parameter of a harmless new signature is given twice. */
  lemma HarmlessFillsOnce(prior: Arguments, next: Arguments, c: Call, j: nat)
    requires WellFormed(prior) && WellFormed(next) && Harmless(prior, next) && !Collides(prior, next)
    requires Accepts(prior, c) && j < |Parameters(next)|
    ensures !(FilledByPosition(next, c, j) && FilledByKeyword(Parameters(next)[j], c))
  {
    var before, q := Parameters(prior), Parameters(next)[j];
    if FilledByPosition(next, c, j) && FilledByKeyword(q, c) {
      if q.name in Names(before) {
        var i :| 0 <= i < |Names(before)| && Names(before)[i] == q.name;
        var k := Served(prior, next, i);
        SameName(next, j, k);
        NotOpened(prior, next, i, j);
        NamedTwice(prior, c, i);
      } else {
        AddedTwice(prior, next, c, j);
      }
    }
  }

  /** A keyword with the name of a parameter goes to that parameter, or to `**kwargs` if it is positional-only. */
  lemma NamedTwice(a: Arguments, c: Call, i: nat)
    requires WellFormed(a) && Accepts(a, c) && i < |Parameters(a)| && Parameters(a)[i].name in c.keywords
    ensures FilledByKeyword(Parameters(a)[i], c) || a.kwarg.Some?
    ensures !(FilledByKeyword(Parameters(a)[i], c) && FilledByPosition(a, c, i))
  {
    if a.kwarg.None? {
      KeywordNamesARow(a, c, i);
    }
  }

  lemma AddedTwice(prior: Arguments, next: Arguments, c: Call, j: nat)
    requires WellFormed(prior) && WellFormed(next) && KeepsPrefix(prior, next) && Accepts(prior, c)
    requires j < |Parameters(next)| && Parameters(next)[j].name !in Names(Parameters(prior))
    requires FilledByPosition(next, c, j) && FilledByKeyword(Parameters(next)[j], c)
    ensures BothVariadic(prior) && AddsPositionalOrKeyword(prior, next)
  {
    var r := Parameters(next)[j];
    assert r in Parameters(next) && r.kind == PositionalOrKeyword;
    if j < prior.PositionalCount() {
      RowName(prior, j);
    }
    if TakesKeyword(prior, r.name) {
      var q :| q in Parameters(prior) && q.name == r.name && q.kind != PositionalOnly;
      var i :| 0 <= i < |Parameters(prior)| && Parameters(prior)[i] == q;
      RowName(prior, i);
    }
  }

  /** Every parameter of a harmless new signature is given a value or has a default. */
  lemma HarmlessFills(prior: Arguments, next: Arguments, c: Call, j: nat)
    requires WellFormed(prior) && WellFormed(next) && Harmless(prior, next)
    requires Accepts(prior, c) && j < |Parameters(next)|
    ensures FilledByPosition(next, c, j) || FilledByKeyword(Parameters(next)[j], c)
            || Parameters(next)[j].default.Some?
  {
    var before, q := Parameters(prior), Parameters(next)[j];
    if q.name in Names(before) {
      var i :| 0 <= i < |Names(before)| && Names(before)[i] == q.name;
      var k := Served(prior, next, i);
      SameName(next, j, k);
      hide Harmless;
      hide TakesKeyword;
    } else {
      assert q in Parameters(next);
    }
  }

  lemma HarmlessTakes(prior: Arguments, next: Arguments, k: string)
    requires WellFormed(prior) && WellFormed(next) && Harmless(prior, next) && TakesKeyword(prior, k)
    ensures TakesKeyword(next, k)
  {
    var before := Parameters(prior);
    var r :| r in before && r.name == k && r.kind != PositionalOnly;
    var i :| 0 <= i < |before| && before[i] == r;
    var j := Served(prior, next, i);
    assert Parameters(next)[j] in Parameters(next);
  }

  lemma HarmlessBinds(prior: Arguments, next: Arguments, c: Call)
    requires WellFormed(prior) && WellFormed(next) && Harmless(prior, next) && !Collides(prior, next)
    requires Accepts(prior, c)
    ensures Accepts(next, c)
  {
    forall j: nat | j < |Parameters(next)|
      ensures !(FilledByPosition(next, c, j) && FilledByKeyword(Parameters(next)[j], c))
      ensures FilledByPosition(next, c, j) || FilledByKeyword(Parameters(next)[j], c)
              || Parameters(next)[j].default.Some?
    {
      HarmlessFillsOnce(prior, next, c, j);
      HarmlessFills(prior, next, c, j);
    }
    forall k | k in c.keywords ensures TakesKeyword(next, k) || next.kwarg.Some? {
      if TakesKeyword(prior, k) {
        HarmlessTakes(prior, next, k);
      }
    }
    hide TakesKeyword;
    hide KeepsRows;
    hide AddsOptional;
    hide FilledByKeyword;
    hide FilledByPosition;
  }

  lemma HarmlessKeepsValues(prior: Arguments, next: Arguments, c: Call, i: nat)
    requires WellFormed(prior) && WellFormed(next) && Harmless(prior, next) && !Collides(prior, next)
    requires Accepts(prior, c) && Accepts(next, c) && i < |Parameters(prior)|
    ensures SameByName(prior, next, c, i)
  {
    var j := Served(prior, next, i);
    var r, q := Parameters(prior)[i], Parameters(next)[j];
    if q.kind == PositionalOrKeyword {
      NotOpened(prior, next, i, j);
    }
    if r.name in c.keywords {
      NamedTwice(prior, c, i);
    }
    hide Collides;
    hide Harmless;
    assert Bound(next, c, j) == Bound(prior, c, i);
  }

  lemma GivenTwice(a: Arguments, j: nat, names: set<string>)
    requires WellFormed(a) && j < |Parameters(a)| && Parameters(a)[j].kind == PositionalOrKeyword
    requires Parameters(a)[j].name in names
    ensures !Accepts(a, Spread(j + 1, names))
  {
    var c := Spread(j + 1, names);
    assert FilledByPosition(a, c, j) && FilledByKeyword(Parameters(a)[j], c);
  }

  lemma AddedMeets(prior: Arguments, next: Arguments, j: nat) returns (c: Call)
    requires WellFormed(prior) && WellFormed(next) && KeepsPrefix(prior, next) && BothVariadic(prior)
    requires j < |Parameters(next)| && Parameters(next)[j].kind == PositionalOrKeyword
    requires Parameters(next)[j].name !in Names(Parameters(prior))
    ensures Accepts(prior, c) && !Accepts(next, c)
  {
    hide Accepts;
    hide FilledByKeyword;
    hide FilledByPosition;
    hide Spread;
    hide KeywordOnlyNames;
    if j < prior.PositionalCount() {
      RowName(prior, j);
    }
    var name := Parameters(next)[j].name;
    hide Parameters;
    hide WellFormed;
    c := Spread(j + 1, KeywordOnlyNames(prior) + {name});
    FullCallAccepted(prior, j + 1, {name});
    GivenTwice(next, j, KeywordOnlyNames(prior) + {name});
  }

  /** With both variadics, an added parameter is reached by position and by keyword. */
  lemma AddedCollides(prior: Arguments, next: Arguments) returns (c: Call)
    requires WellFormed(prior) && WellFormed(next) && KeepsPrefix(prior, next)
    requires BothVariadic(prior) && AddsPositionalOrKeyword(prior, next)
    ensures Accepts(prior, c) && !Accepts(next, c)
  {
    hide Accepts;
    hide KeepsPrefix;
    var r :| r in Parameters(next) && r.name !in Names(Parameters(prior)) && r.kind == PositionalOrKeyword;
    var j :| 0 <= j < |Parameters(next)| && Parameters(next)[j] == r;
    hide WellFormed;
    hide Names;
    c := AddedMeets(prior, next, j);
  }

  /** A parameter that was positional-only is passed by position, while `**kwargs` used to take its name. */
  lemma PositionalOnlyCollides(prior: Arguments, next: Arguments) returns (c: Call)
    requires WellFormed(prior) && WellFormed(next) && KeepsPrefix(prior, next)
    requires prior.kwarg.Some? && Opens(prior, next, PositionalOnly)
    ensures Accepts(prior, c) && !Accepts(next, c)
  {
    var r, q :| r in Parameters(prior) && q in Parameters(next) && q.name == r.name
                && r.kind == PositionalOnly && q.kind == PositionalOrKeyword;
    var i :| 0 <= i < |Parameters(prior)| && Parameters(prior)[i] == r;
    var j :| 0 <= j < |Parameters(next)| && Parameters(next)[j] == q;
    SameName(next, i, j);
    c := Spread(prior.PositionalCount(), KeywordOnlyNames(prior) + {r.name});
    NamedAccepted(prior, i);
    assert FilledByPosition(next, c, i) && FilledByKeyword(Parameters(next)[i], c);
  }

  lemma NamedAccepted(a: Arguments, i: nat)
    requires WellFormed(a) && a.kwarg.Some? && i < |Parameters(a)| && Parameters(a)[i].kind == PositionalOnly
    ensures Accepts(a, Spread(a.PositionalCount(), KeywordOnlyNames(a) + {Parameters(a)[i].name}))
  {
    var rows, c := Parameters(a), Spread(a.PositionalCount(), KeywordOnlyNames(a) + {Parameters(a)[i].name});
    forall k | 0 <= k < |rows|
      ensures FilledByPosition(a, c, k) != FilledByKeyword(rows[k], c)
    {
      KeywordOnlyRow(a, k);
      if rows[k].name == rows[i].name {
        SameName(a, k, i);
      }
    }
  }

  lemma KeywordOnlyMeets(prior: Arguments, next: Arguments, i: nat, j: nat) returns (c: Call)
    requires WellFormed(prior) && WellFormed(next) && KeepsPrefix(prior, next) && prior.vararg.Some?
    requires i < |Parameters(prior)| && j < |Parameters(next)| && prior.PositionalCount() <= i
    requires Parameters(next)[j].name == Parameters(prior)[i].name && Parameters(next)[j].kind == PositionalOrKeyword
    ensures Accepts(prior, c) && !Accepts(next, c)
  {
    hide Accepts;
    hide FilledByKeyword;
    hide FilledByPosition;
    hide Spread;
    hide KeywordOnlyNames;
    if j < prior.PositionalCount() {
      SameName(prior, i, j);
    }
    KeywordOnlyRow(prior, i);
    c := Spread(j + 1, KeywordOnlyNames(prior) + {});
    FullCallAccepted(prior, j + 1, {});
    GivenTwice(next, j, KeywordOnlyNames(prior) + {});
  }

  /** A parameter that was keyword-only is passed by keyword, while `*args` used to take the value at its position. */
  lemma KeywordOnlyCollides(prior: Arguments, next: Arguments) returns (c: Call)
    requires WellFormed(prior) && WellFormed(next) && KeepsPrefix(prior, next)
    requires prior.vararg.Some? && Opens(prior, next, KeywordOnly)
    ensures Accepts(prior, c) && !Accepts(next, c)
  {
    hide Accepts;
    hide KeepsPrefix;
    var r, q :| r in Parameters(prior) && q in Parameters(next) && q.name == r.name
                && r.kind == KeywordOnly && q.kind == PositionalOrKeyword;
    var i :| 0 <= i < |Parameters(prior)| && Parameters(prior)[i] == r;
    var j :| 0 <= j < |Parameters(next)| && Parameters(next)[j] == q;
    hide WellFormed;
    c := KeywordOnlyMeets(prior, next, i, j);
  }

  lemma CollisionBreaksACall(prior: Arguments, next: Arguments)
    requires WellFormed(prior) && WellFormed(next) && KeepsPrefix(prior, next) && Collides(prior, next)
    ensures !NoCallBreaks(prior, next)
  {
    var c;
    if BothVariadic(prior) && AddsPositionalOrKeyword(prior, next) {
      c := AddedCollides(prior, next);
    } else if prior.kwarg.Some? && Opens(prior, next, PositionalOnly) {
      c := PositionalOnlyCollides(prior, next);
    } else {
      c := KeywordOnlyCollides(prior, next);
    }
    assert !Unbroken(prior, next, c);
  }

  /**
    For any two signatures: no caller breaks if and only if the change is harmless and no value that used to go to
    `*args` or `**kwargs` now meets another one.
   */
  lemma NoCallBreaksExactly(prior: Arguments, next: Arguments)
    requires WellFormed(prior) && WellFormed(next)
    ensures NoCallBreaks(prior, next) <==> Harmless(prior, next) && !Collides(prior, next)
  {
    if Harmless(prior, next) && !Collides(prior, next) {
      forall c | Accepts(prior, c) ensures Unbroken(prior, next, c) {
        HarmlessBinds(prior, next, c);
        forall i | 0 <= i < |Parameters(prior)| ensures SameByName(prior, next, c, i) {
          HarmlessKeepsValues(prior, next, c, i);
        }
      }
    } else if Harmless(prior, next) {
      CollisionBreaksACall(prior, next);
    } else {
      HarmBreaksACall(prior, next);
    }
  }

  /** A harmless change is reported only for rows that now take more, or for variadics that changed their name. */
  lemma ReportedThoughHarmless(prior: Arguments, next: Arguments, findings: seq<Finding>, f: Finding)
    requires WellFormed(prior) && WellFormed(next) && Harmless(prior, next)
    requires Reports(findings, prior, next) && f in findings
    ensures match f
            case RemovedOrChanged(name) =>
              exists r, q :: r in Parameters(prior) && q in Parameters(next) && r.name == name && Serves(r, q)
                             && (r.kind != q.kind || (r.default.None? && q.default.Some?))
            case ChangedVararg => next.vararg.Some?
            case ChangedKwarg => next.kwarg.Some?
            case _ => false
  {
    OrderMeansPrefix(prior, next);
    match f
    case RemovedOrChanged(name) =>
      var r :| r in Parameters(prior) && r.name == name && r !in Parameters(next);
      var i :| 0 <= i < |Parameters(prior)| && Parameters(prior)[i] == r;
      var j := Served(prior, next, i);
      assert Parameters(next)[j] in Parameters(next) && Parameters(next)[j] != r;
    case _ =>
  }

  // ---------------------------------------------------------------- a change that is reported but harms nobody

  const REQUIRED := Arguments([], ["a"], [], [], [], None, None)
  const DEFAULTED := Arguments([], ["a"], ["0"], [], [], None, None)

  /** `f(a)` to `f(a=0)` is reported, and no call notices. */
  lemma AddedDefaultHarmsNobody()
    ensures WellFormed(REQUIRED) && WellFormed(DEFAULTED)
    ensures !Compatible(REQUIRED, DEFAULTED) && NoCallBreaks(REQUIRED, DEFAULTED)
  {
    OneRow();
    hide Parameters;
    hide WellFormed;
    var r, q := Parameters(REQUIRED)[0], Parameters(DEFAULTED)[0];
    assert Names(Parameters(REQUIRED)) == ["a"];
    assert IsServed(r, DEFAULTED) by {
      assert Serves(r, q);
    }
    assert r in Parameters(REQUIRED) && r !in Parameters(DEFAULTED);
    NoCallBreaksExactly(REQUIRED, DEFAULTED);
    hide NoCallBreaks;
  }

  lemma OneRow()
    ensures WellFormed(REQUIRED) && Parameters(REQUIRED) == [Row("a", PositionalOrKeyword, None)]
    ensures WellFormed(DEFAULTED) && Parameters(DEFAULTED) == [Row("a", PositionalOrKeyword, Some("0"))]
  {
  }

  // ---------------------------------------------------------------- the signatures of the counterexample

  const VARIADIC := Arguments([], ["a"], [], [], [], Some("args"), Some("kw"))
  const WITH_OPTION := Arguments([], ["a", "b"], ["None"], [], [], Some("args"), Some("kw"))

  lemma VariadicRows()
    ensures WellFormed(VARIADIC) && Parameters(VARIADIC) == [Row("a", PositionalOrKeyword, None)]
    ensures WellFormed(WITH_OPTION)
    ensures Parameters(WITH_OPTION)
            == [Row("a", PositionalOrKeyword, None), Row("b", PositionalOrKeyword, Some("None"))]
  {
    assert Names(Parameters(WITH_OPTION)) == ["a", "b"] && "a" != "b";
  }

  /** `f(a, *args, **kw)` to `f(a, b=None, *args, **kw)` reports nothing, and `f(1, 2, b=3)` stops binding. */
  lemma AddedOptionCollides()
    ensures WellFormed(VARIADIC) && WellFormed(WITH_OPTION) && Compatible(VARIADIC, WITH_OPTION)
    ensures Accepts(VARIADIC, Call([1, 2], map["b" := 3])) && !Accepts(WITH_OPTION, Call([1, 2], map["b" := 3]))
  {
    VariadicRows();
    hide Parameters;
    hide WellFormed;
    hide Names;
    var c := Call([1, 2], map["b" := 3]);
    assert "a" != "b";
    assert FilledByPosition(WITH_OPTION, c, 1) && FilledByKeyword(Parameters(WITH_OPTION)[1], c);
  }
}
