/**
  Endpoint signatures and the report of breaking changes between two of them
  (tools/check_endpoint_compatibility.py).
*/
module Signatures {
  import opened Shared

  datatype Kind = PositionalOnly | PositionalOrKeyword | KeywordOnly

  /** An `ast.arguments` node. Defaults are dumps of expressions, compared as opaque text. */
  datatype Arguments = Arguments(
    posonly: seq<string>,
    args: seq<string>,
    defaults: seq<string>,
    kwonly: seq<string>,
    kwDefaults: seq<Option<string>>,
    vararg: Option<string>,
    kwarg: Option<string>)
  {
    function PositionalCount(): nat {
      |posonly| + |args|
    }
  }

  datatype Row = Row(name: string, kind: Kind, default: Option<string>)

  function Names(rows: seq<Row>): seq<string> {
    seq(|rows|, i requires 0 <= i < |rows| => rows[i].name)
  }

  /** Missing defaults are padded on the left. */
  function Padded(a: Arguments): (defaults: seq<Option<string>>)
    requires |a.defaults| <= a.PositionalCount()
    ensures |defaults| == a.PositionalCount()
  {
    seq(a.PositionalCount() - |a.defaults|, _ => None)
    + seq(|a.defaults|, i requires 0 <= i < |a.defaults| => Some(a.defaults[i]))
  }

  /**
    The name-to-(kind, default) dictionary, as its rows in insertion order: positional parameters, whose
    last ones carry the defaults in order, then keyword-only ones.
   */
  function Parameters(a: Arguments): (rows: seq<Row>)
    requires |a.defaults| <= a.PositionalCount() && |a.kwDefaults| == |a.kwonly|
    ensures |rows| == a.PositionalCount() + |a.kwonly|
    ensures Names(rows) == a.posonly + a.args + a.kwonly
    ensures forall i :: 0 <= i < |rows| ==>
              rows[i].kind == if i < |a.posonly| then PositionalOnly
                              else if i < a.PositionalCount() then PositionalOrKeyword else KeywordOnly
    ensures forall i :: 0 <= i < |rows| ==>
              (rows[i].default.Some? <==>
                 if i < a.PositionalCount() then a.PositionalCount() - |a.defaults| <= i
                 else a.kwDefaults[i - a.PositionalCount()].Some?)
    ensures forall k :: 0 <= k < |a.defaults| ==>
              rows[a.PositionalCount() - |a.defaults| + k].default == Some(a.defaults[k])
    ensures forall k :: 0 <= k < |a.kwonly| ==> rows[a.PositionalCount() + k].default == a.kwDefaults[k]
  {
    var positional, defaults := a.posonly + a.args, Padded(a);
    seq(|positional|, i requires 0 <= i < |positional| =>
      Row(positional[i], if i < |a.posonly| then PositionalOnly else PositionalOrKeyword, defaults[i]))
    + seq(|a.kwonly|, i requires 0 <= i < |a.kwonly| => Row(a.kwonly[i], KeywordOnly, a.kwDefaults[i]))
  }

  ghost predicate Distinct(names: seq<string>) {
    forall i, j :: 0 <= i < j < |names| ==> names[i] != names[j]
  }

  /** What the Python grammar guarantees of a parsed signature. */
  ghost predicate WellFormed(a: Arguments) {
    && |a.defaults| <= a.PositionalCount()
    && |a.kwDefaults| == |a.kwonly|
    && Distinct(Names(Parameters(a)))
  }

  /** `dict.get(name)`. */
  function Get(rows: seq<Row>, name: string): (r: Option<Row>)
    ensures r.Some? ==> r.value in rows && r.value.name == name
    ensures r.None? ==> name !in Names(rows)
  {
    if rows == [] then None
    else if rows[0].name == name then Some(rows[0])
    else
      var r := Get(rows[1..], name);
      assert r.None? ==> name !in Names(rows) by {
        assert forall i :: 1 <= i < |rows| ==> Names(rows)[i] == Names(rows[1..])[i - 1];
      }
      r
  }

  // ---------------------------------------------------------------- the report

  datatype Finding =
    | RemovedOrChanged(name: string)
    | NewRequired(name: string)
    | ChangedVararg
    | ChangedKwarg
    | OrderChanged
    | ContractChanged

  function RemovedOrChangedRows(before: seq<Row>, after: seq<Row>): seq<Finding> {
    if before == [] then []
    else
      (if Get(after, before[0].name) != Some(before[0]) then [RemovedOrChanged(before[0].name)] else [])
      + RemovedOrChangedRows(before[1..], after)
  }

  function NewRequiredRows(before: seq<Row>, after: seq<Row>): seq<Finding> {
    if after == [] then []
    else
      (if after[0].name !in Names(before) && after[0].default.None? then [NewRequired(after[0].name)] else [])
      + NewRequiredRows(before, after[1..])
  }

  predicate VariadicChanged(previous: Option<string>, current: Option<string>) {
    previous.Some? && (current.None? || previous.value != current.value)
  }

  function PositionalNames(rows: seq<Row>): seq<string> {
    if rows == [] then []
    else (if rows[0].kind != KeywordOnly then [rows[0].name] else []) + PositionalNames(rows[1..])
  }

  /** Python's `s[:n]`, which does not fail on a short list. */
  function Take(s: seq<string>, n: nat): seq<string> {
    if n <= |s| then s[..n] else s
  }

  /**
    Compatibility stated without the report: every old parameter survives unchanged at its
    place, every added parameter is optional, and variadics are never lost or renamed.
   */
  ghost predicate Compatible(prior: Arguments, next: Arguments)
    requires WellFormed(prior) && WellFormed(next)
  {
    var before, after := Parameters(prior), Parameters(next);
    && (forall r :: r in before ==> r in after)
    && (forall r :: r in after && r.name !in Names(before) ==> r.default.Some?)
    && (prior.vararg.Some? ==> next.vararg == prior.vararg)
    && (prior.kwarg.Some? ==> next.kwarg == prior.kwarg)
    && prior.PositionalCount() <= next.PositionalCount()
    && (forall i :: 0 <= i < prior.PositionalCount() ==> after[i].name == before[i].name)
  }

  /** What a report says, finding by finding. */
  ghost predicate Reports(findings: seq<Finding>, prior: Arguments, next: Arguments)
    requires WellFormed(prior) && WellFormed(next)
  {
    && (forall name :: RemovedOrChanged(name) in findings <==>
          exists r :: r in Parameters(prior) && r.name == name && r !in Parameters(next))
    && (forall name :: NewRequired(name) in findings <==>
          exists r :: r in Parameters(next) && r.name == name
                      && name !in Names(Parameters(prior)) && r.default.None?)
    && (ChangedVararg in findings <==> VariadicChanged(prior.vararg, next.vararg))
    && (ChangedKwarg in findings <==> VariadicChanged(prior.kwarg, next.kwarg))
    && (OrderChanged in findings <==> !((prior.posonly + prior.args) <= (next.posonly + next.args)))
    && ContractChanged !in findings
  }

  method BreakingChanges(prior: Arguments, next: Arguments) returns (findings: seq<Finding>)
    requires WellFormed(prior) && WellFormed(next)
    ensures Reports(findings, prior, next)
    ensures findings == [] <==> Compatible(prior, next)
    ensures findings == [] <==> SameInterface(prior, next)
    ensures forall i, j :: 0 <= i < j < |findings| ==> findings[i] != findings[j]
  {
    CompatibleExactly(prior, next);
    hide SameInterface;
    var before, after := Parameters(prior), Parameters(next);
    PositionalNamesOf(prior);
    PositionalNamesOf(next);
    OrderMeansPrefix(prior, next);
    hide Parameters;
    hide RemovedOrChangedRows;
    hide NewRequiredRows;
    hide PositionalNames;
    hide Take;
    hide Reports;
    hide Compatible;
    findings := RemovedOrChangedRows(before, after);
    findings := findings + NewRequiredRows(before, after);
    ghost var start := findings;
    ghost var variadic: seq<Finding> := [];
    for kind := 0 to 2
      invariant findings == start + variadic
      invariant forall f :: f in variadic ==> f.ChangedVararg? || f.ChangedKwarg?
      invariant Once(variadic)
      invariant ChangedVararg in variadic <==> kind >= 1 && VariadicChanged(prior.vararg, next.vararg)
      invariant ChangedKwarg in variadic <==> kind >= 2 && VariadicChanged(prior.kwarg, next.kwarg)
    {
      var previous := if kind == 0 then prior.vararg else prior.kwarg;
      var current := if kind == 0 then next.vararg else next.kwarg;
      if previous.Some? && (current.None? || previous.value != current.value) {
        var finding := if kind == 0 then ChangedVararg else ChangedKwarg;
        findings := findings + [finding];
        variadic := variadic + [finding];
      }
    }
    var beforePos, afterPos := PositionalNames(before), PositionalNames(after);
    ghost var order: seq<Finding> := [];
    if Take(afterPos, |beforePos|) != beforePos {
      findings := findings + [OrderChanged];
      order := [OrderChanged];
    }
    assert findings == start + variadic + order;
    PartsReport(prior, next, variadic, order);
    EachOnce(prior, next, variadic, order);
    EmptyMeansCompatible(prior, next, findings);
  }

  // ---------------------------------------------------------------- proofs

  /** No finding is reported twice. */
  ghost predicate Once(findings: seq<Finding>) {
    forall i, j :: 0 <= i < j < |findings| ==> findings[i] != findings[j]
  }

  lemma OnceConcat(a: seq<Finding>, b: seq<Finding>)
    requires Once(a) && Once(b) && forall f :: f in a ==> f !in b
    ensures Once(a + b)
  {
    forall i, j | 0 <= i < j < |a + b| ensures (a + b)[i] != (a + b)[j] {
      if i < |a| <= j {
        assert a[i] in a && b[j - |a|] in b;
      }
    }
  }

  lemma {:induction false} ChangedOnce(before: seq<Row>, after: seq<Row>)
    requires Distinct(Names(before)) && Distinct(Names(after))
    ensures Once(RemovedOrChangedRows(before, after))
  {
    if before == [] {
    } else {
      var first := if Get(after, before[0].name) != Some(before[0]) then [RemovedOrChanged(before[0].name)] else [];
      TailDistinct(before);
      ChangedOnce(before[1..], after);
      RemovedOrChangedExactly(before[1..], after);
      OnceConcat(first, RemovedOrChangedRows(before[1..], after));
    }
  }

  lemma {:induction false} RequiredOnce(before: seq<Row>, after: seq<Row>)
    requires Distinct(Names(after))
    ensures Once(NewRequiredRows(before, after))
  {
    if after == [] {
    } else {
      var first :=
        if after[0].name !in Names(before) && after[0].default.None? then [NewRequired(after[0].name)] else [];
      TailDistinct(after);
      RequiredOnce(before, after[1..]);
      NewRequiredExactly(before, after[1..]);
      OnceConcat(first, NewRequiredRows(before, after[1..]));
    }
  }

  lemma TailDistinct(rows: seq<Row>)
    requires rows != [] && Distinct(Names(rows))
    ensures Distinct(Names(rows[1..])) && forall r :: r in rows[1..] ==> r.name != rows[0].name
  {
    assert Names(rows) == [rows[0].name] + Names(rows[1..]);
    forall r | r in rows[1..] ensures r.name != rows[0].name {
      var i :| 0 <= i < |rows[1..]| && rows[1..][i] == r;
      assert Names(rows)[0] != Names(rows)[i + 1];
    }
    forall i, j | 0 <= i < j < |rows| - 1 ensures Names(rows[1..])[i] != Names(rows[1..])[j] {
      assert Names(rows)[i + 1] != Names(rows)[j + 1];
    }
  }

  lemma EachOnce(prior: Arguments, next: Arguments, variadic: seq<Finding>, order: seq<Finding>)
    requires WellFormed(prior) && WellFormed(next) && Once(variadic) && |order| <= 1
    requires forall f :: f in variadic ==> f.ChangedVararg? || f.ChangedKwarg?
    requires forall f :: f in order ==> f.OrderChanged?
    ensures Once(RemovedOrChangedRows(Parameters(prior), Parameters(next))
                 + NewRequiredRows(Parameters(prior), Parameters(next)) + variadic + order)
  {
    var before, after := Parameters(prior), Parameters(next);
    ChangedOnce(before, after);
    RequiredOnce(before, after);
    RemovedOrChangedExactly(before, after);
    NewRequiredExactly(before, after);
    var a, b := RemovedOrChangedRows(before, after), NewRequiredRows(before, after);
    hide *;
    OnceConcat(a, b);
    OnceConcat(a + b, variadic);
    OnceConcat(a + b + variadic, order);
  }

  lemma GetFinds(rows: seq<Row>, r: Row)
    requires Distinct(Names(rows))
    ensures Get(rows, r.name) == Some(r) <==> r in rows
  {
    if r in rows {
      var i :| 0 <= i < |rows| && rows[i] == r;
      assert Names(rows)[i] == r.name;
      var g := Get(rows, r.name).value;
      var j :| 0 <= j < |rows| && rows[j] == g;
      assert Names(rows)[j] == r.name;
    }
  }

  lemma {:induction false} RemovedOrChangedExactly(before: seq<Row>, after: seq<Row>)
    requires Distinct(Names(after))
    ensures forall f :: f in RemovedOrChangedRows(before, after) ==> f.RemovedOrChanged?
    ensures forall name :: RemovedOrChanged(name) in RemovedOrChangedRows(before, after) <==>
              exists r :: r in before && r.name == name && r !in after
  {
    if before == [] {
    } else {
      RemovedOrChangedExactly(before[1..], after);
      GetFinds(after, before[0]);
      forall name
        ensures RemovedOrChanged(name) in RemovedOrChangedRows(before, after) <==>
                exists r :: r in before && r.name == name && r !in after
      {
        assert before == [before[0]] + before[1..];
      }
    }
  }

  lemma {:induction false} NewRequiredExactly(before: seq<Row>, after: seq<Row>)
    ensures forall f :: f in NewRequiredRows(before, after) ==> f.NewRequired?
    ensures forall name :: NewRequired(name) in NewRequiredRows(before, after) <==>
              exists r :: r in after && r.name == name && name !in Names(before) && r.default.None?
  {
    if after == [] {
    } else {
      NewRequiredExactly(before, after[1..]);
      assert after == [after[0]] + after[1..];
    }
  }

  lemma {:induction false} NoPositionalNames(k: seq<Row>)
    requires forall r :: r in k ==> r.kind == KeywordOnly
    ensures PositionalNames(k) == []
    decreases |k|
  {
    if k != [] {
      assert k[0] in k;
      NoPositionalNames(k[1..]);
    }
  }

  lemma {:induction false} PositionalNamesSplit(p: seq<Row>, k: seq<Row>)
    requires forall r :: r in p ==> r.kind != KeywordOnly
    requires forall r :: r in k ==> r.kind == KeywordOnly
    ensures PositionalNames(p + k) == Names(p)
    decreases |p|
  {
    if p == [] {
      NoPositionalNames(k);
      assert p + k == k;
    } else {
      var all := p + k;
      assert p[0] in p && all[0] == p[0] && all[1..] == p[1..] + k;
      PositionalNamesSplit(p[1..], k);
      NamesSplit(p);
      hide Names;
    }
  }

  lemma NamesSplit(p: seq<Row>)
    requires p != []
    ensures Names(p) == [p[0].name] + Names(p[1..])
  {
  }

  lemma PositionalNamesOf(a: Arguments)
    requires |a.defaults| <= a.PositionalCount() && |a.kwDefaults| == |a.kwonly|
    ensures PositionalNames(Parameters(a)) == a.posonly + a.args
  {
    var rows := Parameters(a);
    var n := a.PositionalCount();
    assert rows == rows[..n] + rows[n..];
    PositionalNamesSplit(rows[..n], rows[n..]);
    assert Names(rows[..n]) == a.posonly + a.args;
  }

  lemma OrderMeansPrefix(prior: Arguments, next: Arguments)
    requires WellFormed(prior) && WellFormed(next)
    ensures var b, a := prior.posonly + prior.args, next.posonly + next.args;
            && (Take(a, |b|) == b <==> b <= a)
            && (b <= a <==>
                && prior.PositionalCount() <= next.PositionalCount()
                && forall i :: 0 <= i < prior.PositionalCount() ==>
                     Parameters(next)[i].name == Parameters(prior)[i].name)
  {
    var b, a := prior.posonly + prior.args, next.posonly + next.args;
    assert forall i :: 0 <= i < |b| ==> Parameters(prior)[i].name == b[i];
    assert forall i :: 0 <= i < |a| ==> Parameters(next)[i].name == a[i];
  }

  lemma PartsReport(prior: Arguments, next: Arguments, variadic: seq<Finding>, order: seq<Finding>)
    requires WellFormed(prior) && WellFormed(next)
    requires forall f :: f in variadic ==> f.ChangedVararg? || f.ChangedKwarg?
    requires ChangedVararg in variadic <==> VariadicChanged(prior.vararg, next.vararg)
    requires ChangedKwarg in variadic <==> VariadicChanged(prior.kwarg, next.kwarg)
    requires order == if (prior.posonly + prior.args) <= (next.posonly + next.args) then [] else [OrderChanged]
    ensures Reports(RemovedOrChangedRows(Parameters(prior), Parameters(next))
                    + NewRequiredRows(Parameters(prior), Parameters(next)) + variadic + order, prior, next)
  {
    var before, after := Parameters(prior), Parameters(next);
    RemovedOrChangedExactly(before, after);
    NewRequiredExactly(before, after);
    Sorted(RemovedOrChangedRows(before, after), NewRequiredRows(before, after), variadic, order);
  }

  /** Findings of different constructors do not mix when the parts of a report are joined. */
  lemma Sorted(a: seq<Finding>, b: seq<Finding>, c: seq<Finding>, d: seq<Finding>)
    requires forall f :: f in a ==> f.RemovedOrChanged?
    requires forall f :: f in b ==> f.NewRequired?
    requires forall f :: f in c ==> f.ChangedVararg? || f.ChangedKwarg?
    requires forall f :: f in d ==> f.OrderChanged?
    ensures var all := a + b + c + d;
            && (forall name :: RemovedOrChanged(name) in all <==> RemovedOrChanged(name) in a)
            && (forall name :: NewRequired(name) in all <==> NewRequired(name) in b)
            && (ChangedVararg in all <==> ChangedVararg in c)
            && (ChangedKwarg in all <==> ChangedKwarg in c)
            && (OrderChanged in all <==> OrderChanged in d)
            && ContractChanged !in all
  {
    var all := a + b + c + d;
    forall f
      ensures f in all <==> f in a || f in b || f in c || f in d
    {
      assert f in all <==> f in a + b + c || f in d;
      assert f in a + b + c <==> f in a + b || f in c;
    }
  }

  lemma EmptyMeansCompatible(prior: Arguments, next: Arguments, findings: seq<Finding>)
    requires WellFormed(prior) && WellFormed(next)
    requires Reports(findings, prior, next)
    ensures findings == [] <==> Compatible(prior, next)
  {
    var before, after := Parameters(prior), Parameters(next);
    OrderMeansPrefix(prior, next);
    if findings == [] {
      forall r | r in before ensures r in after {
        assert RemovedOrChanged(r.name) !in findings;
      }
      forall r | r in after && r.name !in Names(before) ensures r.default.Some? {
        assert NewRequired(r.name) !in findings;
      }
      assert ChangedVararg !in findings && ChangedKwarg !in findings && OrderChanged !in findings;
    }
    if Compatible(prior, next) && findings != [] {
      var f := findings[0];
      assert f in findings;
      match f
      case RemovedOrChanged(name) => assert false;
      case NewRequired(name) => assert false;
      case ChangedVararg => assert false;
      case ChangedKwarg => assert false;
      case OrderChanged => assert false;
    }
  }

  // ---------------------------------------------------------------- the report in terms of the parsed signature

  /**
    What an empty report means for the two `ast.arguments` nodes themselves. Positional defaults are aligned at the
    right end, keyword-only ones by position in their own list.
   */
  ghost predicate SameInterface(prior: Arguments, next: Arguments)
    requires WellFormed(prior) && WellFormed(next)
  {
    var m, n := |prior.posonly| + |prior.args|, |next.posonly| + |next.args|;
    && (prior.posonly + prior.args) <= (next.posonly + next.args)
    && (|prior.posonly| == |next.posonly| || (prior.args == [] && |prior.posonly| <= |next.posonly|))
    && (forall i :: 0 <= i < m ==> SameDefaultAt(prior, next, i))
    && n - m <= |next.defaults|
    && (forall k :: 0 <= k < |prior.kwonly| ==> KeptKeyword(prior.kwonly[k], prior.kwDefaults[k], next))
    && (forall k :: 0 <= k < |next.kwonly| && next.kwonly[k] !in prior.kwonly ==> next.kwDefaults[k].Some?)
    && (prior.vararg.Some? ==> next.vararg == prior.vararg)
    && (prior.kwarg.Some? ==> next.kwarg == prior.kwarg)
  }

  /** The i-th positional parameter has the same default in both, or in neither. */
  ghost predicate SameDefaultAt(prior: Arguments, next: Arguments, i: int)
    requires 0 <= i < |prior.posonly| + |prior.args| <= |next.posonly| + |next.args|
  {
    var p, q := |prior.posonly| + |prior.args| - i, |next.posonly| + |next.args| - i;
    if p <= |prior.defaults| && q <= |next.defaults|
    then prior.defaults[|prior.defaults| - p] == next.defaults[|next.defaults| - q]
    else p > |prior.defaults| && q > |next.defaults|
  }

  /** The keyword-only parameter is still there with the same default, or still without one. */
  ghost predicate KeptKeyword(name: string, default: Option<string>, next: Arguments)
    requires |next.kwDefaults| == |next.kwonly|
  {
    exists k :: 0 <= k < |next.kwonly| && next.kwonly[k] == name && next.kwDefaults[k] == default
  }

  /** The report is empty, or compatible, exactly when the two parsed signatures offer the same interface. */
  lemma CompatibleExactly(prior: Arguments, next: Arguments)
    requires WellFormed(prior) && WellFormed(next)
    ensures Compatible(prior, next) <==> SameInterface(prior, next)
  {
    if Compatible(prior, next) {
      CompatibleKeepsPositional(prior, next);
      CompatibleKeepsKeywords(prior, next);
    }
    if SameInterface(prior, next) {
      InterfaceKeepsRows(prior, next);
      InterfaceAddsOptional(prior, next);
      OrderMeansPrefix(prior, next);
    }
  }

  lemma RowNamed(a: Arguments, i: nat)
    requires WellFormed(a) && i < |Parameters(a)|
    ensures Parameters(a)[i].name == (a.posonly + a.args + a.kwonly)[i] == Names(Parameters(a))[i]
    ensures Parameters(a)[i] in Parameters(a)
  {
    assert Names(Parameters(a))[i] == Parameters(a)[i].name;
  }

  lemma OneRowPerName(a: Arguments, i: nat, j: nat)
    requires WellFormed(a) && i < |Parameters(a)| && j < |Parameters(a)|
    requires Parameters(a)[i].name == Parameters(a)[j].name
    ensures i == j
  {
    RowNamed(a, i);
    RowNamed(a, j);
  }

  /** The default of a positional row, counted from the right end. */
  lemma RowDefault(a: Arguments, i: nat)
    requires WellFormed(a) && i < |a.posonly| + |a.args|
    ensures var m := |a.posonly| + |a.args|;
            Parameters(a)[i].default
            == if m - i <= |a.defaults| then Some(a.defaults[|a.defaults| - (m - i)]) else None
  {
    var m := |a.posonly| + |a.args|;
    if m - i <= |a.defaults| {
      var k := |a.defaults| - (m - i);
      assert a.PositionalCount() - |a.defaults| + k == i;
    }
  }

  lemma SameDefaultExactly(prior: Arguments, next: Arguments, i: nat)
    requires WellFormed(prior) && WellFormed(next)
    requires i < |prior.posonly| + |prior.args| <= |next.posonly| + |next.args|
    ensures SameDefaultAt(prior, next, i) <==> Parameters(prior)[i].default == Parameters(next)[i].default
  {
    RowDefault(prior, i);
    RowDefault(next, i);
    hide Parameters;
  }

  /** In a compatible signature every old positional row is at its old place. */
  lemma PositionalRowStays(prior: Arguments, next: Arguments, i: nat)
    requires WellFormed(prior) && WellFormed(next) && Compatible(prior, next)
    requires i < |prior.posonly| + |prior.args|
    ensures i < |next.posonly| + |next.args| && Parameters(next)[i] == Parameters(prior)[i]
  {
    RowNamed(prior, i);
    var j :| 0 <= j < |Parameters(next)| && Parameters(next)[j] == Parameters(prior)[i];
    OneRowPerName(next, i, j);
  }

  /** A positional parameter beyond the old ones is new. */
  lemma AddedName(prior: Arguments, next: Arguments, i: nat)
    requires WellFormed(prior) && WellFormed(next) && Compatible(prior, next)
    requires |prior.posonly| + |prior.args| <= i < |next.posonly| + |next.args|
    ensures Parameters(next)[i].name !in Names(Parameters(prior))
  {
    var name := Parameters(next)[i].name;
    if name in Names(Parameters(prior)) {
      var p :| 0 <= p < |Names(Parameters(prior))| && Names(Parameters(prior))[p] == name;
      RowNamed(prior, p);
      var j :| 0 <= j < |Parameters(next)| && Parameters(next)[j] == Parameters(prior)[p];
      OneRowPerName(next, i, j);
      if p < |prior.posonly| + |prior.args| {
        OneRowPerName(next, p, i);
      }
    }
  }

  lemma CompatibleKeepsPositional(prior: Arguments, next: Arguments)
    requires WellFormed(prior) && WellFormed(next) && Compatible(prior, next)
    ensures var m, n := |prior.posonly| + |prior.args|, |next.posonly| + |next.args|;
            && (prior.posonly + prior.args) <= (next.posonly + next.args)
            && (|prior.posonly| == |next.posonly| || (prior.args == [] && |prior.posonly| <= |next.posonly|))
            && (forall i :: 0 <= i < m ==> SameDefaultAt(prior, next, i))
            && n - m <= |next.defaults|
  {
    var m, n := |prior.posonly| + |prior.args|, |next.posonly| + |next.args|;
    OrderMeansPrefix(prior, next);
    forall i: nat | i < m ensures SameDefaultAt(prior, next, i) {
      PositionalRowStays(prior, next, i);
      SameDefaultExactly(prior, next, i);
    }
    if m > 0 {
      KindsStay(prior, next);
    }
    if m < n {
      AddedName(prior, next, m);
      RowNamed(next, m);
      RowDefault(next, m);
    }
  }

  lemma KindsStay(prior: Arguments, next: Arguments)
    requires WellFormed(prior) && WellFormed(next) && Compatible(prior, next)
    ensures |prior.posonly| == |next.posonly| || (prior.args == [] && |prior.posonly| <= |next.posonly|)
  {
    if prior.posonly != [] {
      PositionalRowStays(prior, next, |prior.posonly| - 1);
    }
    if prior.args != [] {
      PositionalRowStays(prior, next, |prior.posonly|);
    }
  }

  /** The rows of keyword-only parameters, in their order. */
  lemma KeywordRow(a: Arguments, k: nat)
    requires WellFormed(a) && k < |a.kwonly|
    ensures Parameters(a)[a.PositionalCount() + k] == Row(a.kwonly[k], KeywordOnly, a.kwDefaults[k])
  {
    RowNamed(a, a.PositionalCount() + k);
  }

  lemma KeywordRowOnly(a: Arguments, r: Row) returns (k: nat)
    requires WellFormed(a) && r in Parameters(a) && r.kind == KeywordOnly
    ensures k < |a.kwonly| && r == Row(a.kwonly[k], KeywordOnly, a.kwDefaults[k])
  {
    var j :| 0 <= j < |Parameters(a)| && Parameters(a)[j] == r;
    k := j - a.PositionalCount();
    KeywordRow(a, k);
  }

  /** The rows of positional parameters. */
  lemma PositionalRow(a: Arguments, i: nat)
    requires WellFormed(a) && i < |a.posonly| + |a.args|
    ensures Parameters(a)[i].name == (a.posonly + a.args)[i]
    ensures Parameters(a)[i].kind == if i < |a.posonly| then PositionalOnly else PositionalOrKeyword
  {
    RowNamed(a, i);
  }

  lemma CompatibleKeepsKeywords(prior: Arguments, next: Arguments)
    requires WellFormed(prior) && WellFormed(next) && Compatible(prior, next)
    ensures forall k :: 0 <= k < |prior.kwonly| ==> KeptKeyword(prior.kwonly[k], prior.kwDefaults[k], next)
    ensures forall k :: 0 <= k < |next.kwonly| && next.kwonly[k] !in prior.kwonly ==> next.kwDefaults[k].Some?
  {
    hide Parameters;
    hide KeptKeyword;
    forall k: nat | k < |prior.kwonly| ensures KeptKeyword(prior.kwonly[k], prior.kwDefaults[k], next) {
      KeywordIsKept(prior, next, k);
    }
    forall k: nat | k < |next.kwonly| && next.kwonly[k] !in prior.kwonly ensures next.kwDefaults[k].Some? {
      KeywordRow(next, k);
      NewKeyword(prior, next, k);
      assert Parameters(next)[next.PositionalCount() + k] in Parameters(next);
    }
  }

  lemma KeywordIsKept(prior: Arguments, next: Arguments, k: nat)
    requires WellFormed(prior) && WellFormed(next) && Compatible(prior, next) && k < |prior.kwonly|
    ensures KeptKeyword(prior.kwonly[k], prior.kwDefaults[k], next)
  {
    hide Parameters;
    KeywordRow(prior, k);
    assert Parameters(prior)[prior.PositionalCount() + k] in Parameters(prior);
    hide WellFormed;
    var q := KeywordRowOnly(next, Row(prior.kwonly[k], KeywordOnly, prior.kwDefaults[k]));
  }

  /** A keyword-only name that was not keyword-only before is new altogether. */
  lemma NewKeyword(prior: Arguments, next: Arguments, k: nat)
    requires WellFormed(prior) && WellFormed(next) && k < |next.kwonly| && next.kwonly[k] !in prior.kwonly
    requires forall p :: 0 <= p < prior.PositionalCount() ==>
               p < next.PositionalCount() && Parameters(next)[p].name == Parameters(prior)[p].name
    ensures next.kwonly[k] == Parameters(next)[next.PositionalCount() + k].name
    ensures next.kwonly[k] !in Names(Parameters(prior))
  {
    var i := next.PositionalCount() + k;
    RowNamed(next, i);
    if next.kwonly[k] in Names(Parameters(prior)) {
      var p :| 0 <= p < |Names(Parameters(prior))| && Names(Parameters(prior))[p] == next.kwonly[k];
      RowNamed(prior, p);
      if p < prior.PositionalCount() {
        OneRowPerName(next, p, i);
      }
    }
  }

  lemma InterfaceKeepsRow(prior: Arguments, next: Arguments, i: nat)
    requires WellFormed(prior) && WellFormed(next) && SameInterface(prior, next) && i < |Parameters(prior)|
    ensures Parameters(prior)[i] in Parameters(next)
  {
    if i < prior.PositionalCount() {
      InterfaceKeepsPositional(prior, next, i);
    } else {
      InterfaceKeepsKeyword(prior, next, i - prior.PositionalCount());
    }
  }

  lemma InterfaceKeepsPositional(prior: Arguments, next: Arguments, i: nat)
    requires WellFormed(prior) && WellFormed(next) && SameInterface(prior, next) && i < |prior.posonly| + |prior.args|
    ensures i < |next.posonly| + |next.args| && Parameters(prior)[i] == Parameters(next)[i]
    ensures Parameters(prior)[i] in Parameters(next)
  {
    PositionalRow(prior, i);
    PositionalRow(next, i);
    SameDefaultExactly(prior, next, i);
    assert Parameters(next)[i] in Parameters(next);
    hide Parameters;
    hide WellFormed;
    hide KeptKeyword;
    hide SameDefaultAt;
    assert (prior.posonly + prior.args)[i] == (next.posonly + next.args)[i];
  }

  lemma InterfaceKeepsKeyword(prior: Arguments, next: Arguments, k: nat)
    requires WellFormed(prior) && WellFormed(next) && SameInterface(prior, next) && k < |prior.kwonly|
    ensures Parameters(prior)[prior.PositionalCount() + k] in Parameters(next)
  {
    KeywordRow(prior, k);
    assert KeptKeyword(prior.kwonly[k], prior.kwDefaults[k], next);
    var q :| 0 <= q < |next.kwonly| && next.kwonly[q] == prior.kwonly[k]
             && next.kwDefaults[q] == prior.kwDefaults[k];
    KeywordRow(next, q);
    assert Parameters(next)[next.PositionalCount() + q] in Parameters(next);
    hide Parameters;
    hide WellFormed;
    hide SameInterface;
  }

  lemma InterfaceKeepsRows(prior: Arguments, next: Arguments)
    requires WellFormed(prior) && WellFormed(next) && SameInterface(prior, next)
    ensures forall r :: r in Parameters(prior) ==> r in Parameters(next)
  {
    forall r | r in Parameters(prior) ensures r in Parameters(next) {
      var i :| 0 <= i < |Parameters(prior)| && Parameters(prior)[i] == r;
      InterfaceKeepsRow(prior, next, i);
    }
  }

  lemma InterfaceAddsOptional(prior: Arguments, next: Arguments)
    requires WellFormed(prior) && WellFormed(next) && SameInterface(prior, next)
    ensures forall r :: r in Parameters(next) && r.name !in Names(Parameters(prior)) ==> r.default.Some?
  {
    forall r | r in Parameters(next) && r.name !in Names(Parameters(prior)) ensures r.default.Some? {
      var i :| 0 <= i < |Parameters(next)| && Parameters(next)[i] == r;
      NewRowIsOptional(prior, next, i);
    }
  }

  lemma KeywordNamed(a: Arguments, name: string)
    requires WellFormed(a)
    ensures name in a.kwonly ==> name in Names(Parameters(a))
  {
    if name in a.kwonly {
      var p :| 0 <= p < |a.kwonly| && a.kwonly[p] == name;
      RowNamed(a, a.PositionalCount() + p);
    }
  }

  lemma NewRowIsOptional(prior: Arguments, next: Arguments, i: nat)
    requires WellFormed(prior) && WellFormed(next) && SameInterface(prior, next) && i < |Parameters(next)|
    requires Parameters(next)[i].name !in Names(Parameters(prior))
    ensures Parameters(next)[i].default.Some?
  {
    RowNamed(next, i);
    if i < prior.PositionalCount() {
      RowNamed(prior, i);
    } else if i < next.PositionalCount() {
      RowDefault(next, i);
    } else {
      KeywordNamed(prior, next.kwonly[i - next.PositionalCount()]);
    }
  }

  const AUTO := Arguments([], [], [], ["backend"], [Some("auto")], None, None)
  const PYTHON := Arguments([], [], [], ["backend"], [Some("python")], None, None)

  /** `f(*, backend="auto")` becoming `f(*, backend="python")` is reported as a changed parameter. */
  lemma ChangedKeywordDefaultIsReported(findings: seq<Finding>)
    ensures WellFormed(AUTO) && WellFormed(PYTHON)
    ensures Reports(findings, AUTO, PYTHON) ==> RemovedOrChanged("backend") in findings
  {
    assert "auto" != "python";
    assert Parameters(AUTO)[0] == Row("backend", KeywordOnly, Some("auto"));
    assert Parameters(AUTO)[0] !in Parameters(PYTHON);
  }

  // ---------------------------------------------------------------- methods

  /** An AST function node: its arguments, `type(node).__name__` and its decorator dumps. */
  datatype MethodNode = MethodNode(args: Arguments, nodeType: string, decorators: seq<string>)

  ghost predicate MethodCompatible(prior: MethodNode, next: MethodNode)
    requires WellFormed(prior.args) && WellFormed(next.args)
  {
    && Compatible(prior.args, next.args)
    && prior.nodeType == next.nodeType
    && prior.decorators == next.decorators
  }

  method MethodBreakingChanges(prior: MethodNode, next: MethodNode) returns (findings: seq<Finding>)
    requires WellFormed(prior.args) && WellFormed(next.args)
    ensures findings == [] <==> MethodCompatible(prior, next)
    ensures exists base :: Reports(base, prior.args, next.args)
              && findings == base + if (prior.nodeType, prior.decorators) != (next.nodeType, next.decorators)
                                    then [ContractChanged] else []
  {
    findings := BreakingChanges(prior.args, next.args);
    ghost var base := findings;
    assert base + [] == base;
    if (prior.nodeType, prior.decorators) != (next.nodeType, next.decorators) {
      findings := findings + [ContractChanged];
    }
  }

  /** An empty report is a preorder on methods: nothing is broken by doing nothing, and safe steps compose. */
  lemma CompatiblePreorder(a: MethodNode, b: MethodNode, c: MethodNode)
    requires WellFormed(a.args) && WellFormed(b.args) && WellFormed(c.args)
    ensures MethodCompatible(a, a)
    ensures MethodCompatible(a, b) && MethodCompatible(b, c) ==> MethodCompatible(a, c)
  {
    var ra, rb, rc := Parameters(a.args), Parameters(b.args), Parameters(c.args);
    assert forall i :: 0 <= i < |ra| ==> Names(ra)[i] == ra[i].name;
    if MethodCompatible(a, b) && MethodCompatible(b, c) {
      forall r | r in rc && r.name !in Names(ra) ensures r.default.Some? {
        if r.name in Names(rb) {
          var i :| 0 <= i < |rb| && Names(rb)[i] == r.name;
          assert rb[i] in rb && rb[i] in rc;
          GetFinds(rc, r);
          GetFinds(rc, rb[i]);
        }
      }
    }
  }
}
