/**
  The promotion gate of tools/check_benchmark_governance.py (`_validate_registry_evidence`): current promotion
  cannot consume historical, incomplete or unbound evidence.
*/
module EvidenceGate {
  import opened Shared

  /** Decoded JSON. Objects keep insertion order; their keys are distinct. */
  datatype Json =
    | Null
    | Bool(b: bool)
    | Num(n: real)
    | Str(s: string)
    | List(items: seq<Json>)
    | Obj(fields: seq<(string, Json)>)

  function Lookup(fields: seq<(string, Json)>, key: string): (r: Option<Json>)
    ensures r.Some? ==> (key, r.value) in fields
    ensures r.None? ==> forall i :: 0 <= i < |fields| ==> fields[i].0 != key
  {
    if fields == [] then None
    else if fields[0].0 == key then Some(fields[0].1)
    else Lookup(fields[1..], key)
  }

  /** `dict.get(key)`: None for a missing key and for a null value. */
  function Get(fields: seq<(string, Json)>, key: string): Json {
    match Lookup(fields, key)
    case None => Null
    case Some(j) => j
  }

  predicate Truthy(j: Json) {
    match j
    case Null => false
    case Bool(b) => b
    case Num(n) => n != 0.0
    case Str(s) => s != ""
    case List(items) => items != []
    case Obj(fields) => fields != []
  }

  /**
    What Python supplies: `str` of a value, `==` of two values, and the violations reported by
    `current_candidate_evidence_violations` for one piece of evidence.
   */
  datatype Host = Host(text: Json -> string, same: (Json, Json) -> bool, candidate: Json -> seq<string>)

  /** The validated measurement contract: its id and the ids of its routes and profile pairs. */
  datatype Measurement = Measurement(id: Json, routes: seq<Json>, pairs: seq<Json>)

  const CURRENT := Str("current_candidate_verified")
  const HISTORICAL := Str("historical_scope_only")
  const CONTRACT_PATH := "benchmarks/native_event/manifests/phase72_measurement_contract_v1.json"

  function RequiredKeys(): seq<string> {
    ["measurement_contract_id", "route_id", "profile_pair", "measurement_status", "identity_status",
     "promotion_eligible"]
  }

  predicate Declared(ids: seq<Json>, text: Json -> string, name: string) {
    exists i :: 0 <= i < |ids| && text(ids[i]) == name
  }

  datatype Problem =
    | NotAnObject
    | Missing(key: string)
    | ContractMismatch
    | UnknownRoute
    | UnknownPair
    | EligibilityNotBoolean
    | CandidateIncomplete
    | CandidateViolation(detail: string)
    | NonCurrentEligible
    | HistoricalIdentity

  datatype Violation =
    | NoDeclaration
    | ContractIdMismatch
    | ContractPathMismatch
    | EvidenceNotAnObject
    | Evidence(workload: string, problem: Problem)
    | RuleUnbacked(rule: Json)

  datatype Outcome = Checked(violations: seq<Violation>) | Raised

  // ---------------------------------------------------------------- what the gate demands

  /** The summary of a verified current candidate. */
  predicate CandidateComplete(e: seq<(string, Json)>) {
    && Get(e, "status") == Str("pass")
    && Get(e, "identity_status") == Str("current_candidate")
    && Get(e, "promotion_eligible") == Bool(true)
    && Get(e, "end_to_end_faster_than_python") == Bool(true)
    && Get(e, "rss_plateau") == Bool(true)
  }

  /** Bound to the contract, to a declared route and to a declared profile pair. */
  ghost predicate BoundTo(e: seq<(string, Json)>, m: Measurement, h: Host) {
    && h.same(Get(e, "measurement_contract_id"), m.id)
    && Declared(m.routes, h.text, h.text(Get(e, "route_id")))
    && Declared(m.pairs, h.text, h.text(Get(e, "profile_pair")))
  }

  ghost predicate EvidenceOk(j: Json, m: Measurement, h: Host) {
    && j.Obj?
    && var e := j.fields;
       && (forall k :: 0 <= k < |RequiredKeys()| ==> Lookup(e, RequiredKeys()[k]).Some?)
       && BoundTo(e, m, h)
       && Get(e, "promotion_eligible").Bool?
       && (Get(e, "measurement_status") == CURRENT ==> CandidateComplete(e) && h.candidate(j) == [])
       && (Get(e, "measurement_status") != CURRENT ==> Get(e, "promotion_eligible") == Bool(false))
       && (Get(e, "measurement_status") == HISTORICAL ==>
             Get(e, "identity_status") == Str("historical_pre_phase72"))
  }

  // ---------------------------------------------------------------- what the gate reports

  function MissingKeys(e: seq<(string, Json)>, keys: seq<string>): seq<Problem> {
    if keys == [] then []
    else MissingKeys(e, keys[..|keys| - 1])
         + if Lookup(e, keys[|keys| - 1]).None? then [Missing(keys[|keys| - 1])] else []
  }

  function When(condition: bool, p: Problem): seq<Problem> {
    if condition then [p] else []
  }

  function BindingProblems(e: seq<(string, Json)>, m: Measurement, h: Host): seq<Problem> {
    When(!h.same(Get(e, "measurement_contract_id"), m.id), ContractMismatch)
    + When(!Declared(m.routes, h.text, h.text(Get(e, "route_id"))), UnknownRoute)
    + When(!Declared(m.pairs, h.text, h.text(Get(e, "profile_pair"))), UnknownPair)
  }

  function Details(ds: seq<string>): seq<Problem> {
    seq(|ds|, i requires 0 <= i < |ds| => CandidateViolation(ds[i]))
  }

  function StatusProblems(j: Json, h: Host): seq<Problem>
    requires j.Obj?
  {
    var e := j.fields;
    var status := Get(e, "measurement_status");
    (if status == CURRENT then When(!CandidateComplete(e), CandidateIncomplete) + Details(h.candidate(j))
     else When(Truthy(Get(e, "promotion_eligible")), NonCurrentEligible))
    + When(status == HISTORICAL && Get(e, "identity_status") != Str("historical_pre_phase72"), HistoricalIdentity)
  }

  function EvidenceProblems(j: Json, m: Measurement, h: Host): seq<Problem> {
    if !j.Obj? then [NotAnObject]
    else
      MissingKeys(j.fields, RequiredKeys()) + BindingProblems(j.fields, m, h)
      + if !Get(j.fields, "promotion_eligible").Bool? then [EligibilityNotBoolean] else StatusProblems(j, h)
  }

  /** The checks that depend on the measurement status. */
  method CheckStatus(j: Json, h: Host) returns (problems: seq<Problem>)
    requires j.Obj?
    ensures problems == StatusProblems(j, h)
  {
    hide Lookup;
    hide Truthy;
    var e := j.fields;
    problems := [];
    var status := Get(e, "measurement_status");
    if status == CURRENT {
      if Get(e, "status") != Str("pass") || Get(e, "identity_status") != Str("current_candidate")
         || Get(e, "promotion_eligible") != Bool(true) || Get(e, "end_to_end_faster_than_python") != Bool(true)
         || Get(e, "rss_plateau") != Bool(true) {
        problems := problems + [CandidateIncomplete];
      }
      var details := h.candidate(j);
      ghost var before := problems;
      for d := 0 to |details|
        invariant problems == before + Details(details[..d])
      {
        assert Details(details[..d + 1]) == Details(details[..d]) + [CandidateViolation(details[d])];
        problems := problems + [CandidateViolation(details[d])];
      }
      assert details[..|details|] == details;
    } else if Truthy(Get(e, "promotion_eligible")) {
      problems := problems + [NonCurrentEligible];
    }
    if status == HISTORICAL && Get(e, "identity_status") != Str("historical_pre_phase72") {
      problems := problems + [HistoricalIdentity];
    }
  }

  /** One piece of evidence, with the early exits of the loop body. */
  method CheckEvidence(j: Json, m: Measurement, h: Host) returns (problems: seq<Problem>)
    ensures problems == EvidenceProblems(j, m, h)
    ensures problems == [] <==> EvidenceOk(j, m, h)
  {
    EvidenceExactly(j, m, h);
    hide EvidenceOk;
    hide Declared;
    hide StatusProblems;
    hide Lookup;
    if !j.Obj? {
      return [NotAnObject];
    }
    var e := j.fields;
    problems := [];
    var keys := RequiredKeys();
    hide RequiredKeys;
    for k := 0 to |keys|
      invariant problems == MissingKeys(e, keys[..k])
    {
      assert keys[..k + 1][..k] == keys[..k];
      if Lookup(e, keys[k]).None? {
        problems := problems + [Missing(keys[k])];
      }
    }
    assert keys[..|keys|] == keys;
    hide MissingKeys;
    ghost var start := problems;
    if !h.same(Get(e, "measurement_contract_id"), m.id) {
      problems := problems + [ContractMismatch];
    }
    if !Declared(m.routes, h.text, h.text(Get(e, "route_id"))) {
      problems := problems + [UnknownRoute];
    }
    if !Declared(m.pairs, h.text, h.text(Get(e, "profile_pair"))) {
      problems := problems + [UnknownPair];
    }
    assert problems == start + BindingProblems(e, m, h);
    if !Get(e, "promotion_eligible").Bool? {
      problems := problems + [EligibilityNotBoolean];
      return;
    }
    var rest := CheckStatus(j, h);
    problems := problems + rest;
  }

  lemma {:induction false} NoMissingKeys(e: seq<(string, Json)>, keys: seq<string>)
    ensures MissingKeys(e, keys) == [] <==> forall k :: 0 <= k < |keys| ==> Lookup(e, keys[k]).Some?
    decreases |keys|
  {
    if keys == [] {
    } else {
      var init := keys[..|keys| - 1];
      NoMissingKeys(e, init);
      assert forall k :: 0 <= k < |init| ==> init[k] == keys[k];
    }
  }

  /** No problem is reported exactly for the evidence the gate demands. */
  lemma EvidenceExactly(j: Json, m: Measurement, h: Host)
    ensures EvidenceProblems(j, m, h) == [] <==> EvidenceOk(j, m, h)
  {
    if j.Obj? {
      NoMissingKeys(j.fields, RequiredKeys());
      hide MissingKeys;
      hide RequiredKeys;
      hide Declared;
      var status := Get(j.fields, "measurement_status");
      assert CURRENT != HISTORICAL;
      hide Get;
    }
  }

  // ---------------------------------------------------------------- the whole registry

  type Items = seq<(string, Json)>

  /** `product.get("performance_evidence", {})`. */
  function EvidenceField(product: Items): Json {
    match Lookup(product, "performance_evidence")
    case None => Obj([])
    case Some(j) => j
  }

  /** `product.get("promotion_policy", {}).get("rules", [])`; None when `.get` fails. */
  function RulesField(product: Items): Option<Json> {
    var policy := match Lookup(product, "promotion_policy") case None => Obj([]) case Some(j) => j;
    if !policy.Obj? then None
    else Some(match Lookup(policy.fields, "rules") case None => List([]) case Some(j) => j)
  }

  /** The values a `for` loop visits; None when the value cannot be iterated. */
  function Iterate(j: Json): Option<seq<Json>> {
    match j
    case List(items) => Some(items)
    case Str(s) => Some(seq(|s|, i requires 0 <= i < |s| => Str([s[i]])))
    case Obj(fields) => Some(seq(|fields|, i requires 0 <= i < |fields| => Str(fields[i].0)))
    case _ => None
  }

  ghost predicate HeaderOk(product: Items, m: Measurement, h: Host) {
    var d := Get(product, "measurement_contract");
    d.Obj? && h.same(Get(d.fields, "id"), m.id) && Get(d.fields, "path") == Str(CONTRACT_PATH)
  }

  /** The evidence a rule points at is verified and eligible. */
  ghost predicate Backed(rule: Json, evidence: Items, h: Host) {
    && rule.Obj?
    && (Truthy(Get(rule.fields, "enabled")) ==>
          var found := Lookup(evidence, h.text(Get(rule.fields, "workload_id")));
          && found.Some? && found.value.Obj?
          && Get(found.value.fields, "measurement_status") == CURRENT
          && Get(found.value.fields, "promotion_eligible") == Bool(true))
  }

  /** A rule, or the evidence an enabled rule names, that is not an object: asking it for a key raises. */
  ghost predicate Malformed(rule: Json, evidence: Items, h: Host) {
    || !rule.Obj?
    || (Truthy(Get(rule.fields, "enabled"))
        && var found := Lookup(evidence, h.text(Get(rule.fields, "workload_id")));
           found.Some? && !found.value.Obj?)
  }

  ghost predicate AllOk(evidence: Items, m: Measurement, h: Host) {
    forall i :: 0 <= i < |evidence| ==> EvidenceOk(evidence[i].1, m, h)
  }

  /** Everything an empty report promises. */
  ghost predicate GateOk(product: Items, m: Measurement, h: Host) {
    && HeaderOk(product, m, h)
    && EvidenceField(product).Obj?
    && var evidence := EvidenceField(product).fields;
       && AllOk(evidence, m, h)
       && RulesField(product).Some?
       && Iterate(RulesField(product).value).Some?
       && var rules := Iterate(RulesField(product).value).value;
          forall i :: 0 <= i < |rules| ==> Backed(rules[i], evidence, h)
  }

  // ---------------------------------------------------------------- the report

  function HeaderViolations(product: Items, m: Measurement, h: Host): seq<Violation> {
    var d := Get(product, "measurement_contract");
    if !d.Obj? then [NoDeclaration]
    else (if !h.same(Get(d.fields, "id"), m.id) then [ContractIdMismatch] else [])
         + if Get(d.fields, "path") != Str(CONTRACT_PATH) then [ContractPathMismatch] else []
  }

  function Labelled(workload: string, problems: seq<Problem>): seq<Violation> {
    seq(|problems|, i requires 0 <= i < |problems| => Evidence(workload, problems[i]))
  }

  function EvidenceViolations(evidence: Items, m: Measurement, h: Host): seq<Violation> {
    if evidence == [] then []
    else
      var init, last := evidence[..|evidence| - 1], evidence[|evidence| - 1];
      EvidenceViolations(init, m, h) + Labelled(last.0, EvidenceProblems(last.1, m, h))
  }

  /** The rules in order; None when a rule or the evidence it names is not an object. */
  function RuleViolations(rules: seq<Json>, evidence: Items, h: Host): Option<seq<Violation>> {
    if rules == [] then Some([])
    else
      var init, rule := RuleViolations(rules[..|rules| - 1], evidence, h), rules[|rules| - 1];
      if init.None? || !rule.Obj? then None
      else if !Truthy(Get(rule.fields, "enabled")) then init
      else
        var e := match Lookup(evidence, h.text(Get(rule.fields, "workload_id"))) case None => Obj([]) case Some(j) => j;
        if !e.Obj? then None
        else if Get(e.fields, "measurement_status") != CURRENT || Get(e.fields, "promotion_eligible") != Bool(true)
        then Some(init.value + [RuleUnbacked(Get(rule.fields, "id"))])
        else init
  }

  function Report(product: Items, m: Measurement, h: Host): Outcome {
    var header := HeaderViolations(product, m, h);
    if !Get(product, "measurement_contract").Obj? then Checked(header)
    else if !EvidenceField(product).Obj? then Checked(header + [EvidenceNotAnObject])
    else
      var evidence := EvidenceField(product).fields;
      var checked := header + EvidenceViolations(evidence, m, h);
      if RulesField(product).None? || Iterate(RulesField(product).value).None? then Raised
      else
        match RuleViolations(Iterate(RulesField(product).value).value, evidence, h)
        case None => Raised
        case Some(unbacked) => Checked(checked + unbacked)
  }

  /** The declaration checks: which finding says what, and that none means a declaration of this contract. */
  method CheckHeader(product: Items, m: Measurement, h: Host) returns (stop: bool, violations: seq<Violation>)
    ensures violations == HeaderViolations(product, m, h)
    ensures violations == [] <==> HeaderOk(product, m, h)
    ensures var d := Get(product, "measurement_contract");
            && (stop <==> !d.Obj?)
            && (NoDeclaration in violations <==> !d.Obj?)
            && (ContractIdMismatch in violations <==> d.Obj? && !h.same(Get(d.fields, "id"), m.id))
            && (ContractPathMismatch in violations <==> d.Obj? && Get(d.fields, "path") != Str(CONTRACT_PATH))
    ensures forall v :: v in violations ==> v.NoDeclaration? || v.ContractIdMismatch? || v.ContractPathMismatch?
  {
    var declaration := Get(product, "measurement_contract");
    if !declaration.Obj? {
      return true, [NoDeclaration];
    }
    stop, violations := false, [];
    if !h.same(Get(declaration.fields, "id"), m.id) {
      violations := violations + [ContractIdMismatch];
    }
    if Get(declaration.fields, "path") != Str(CONTRACT_PATH) {
      violations := violations + [ContractPathMismatch];
    }
  }

  /**
    The promotion rules: no violation and no exception means that every rule is backed. An exception means that some
    rule, or the evidence an enabled rule names, is not an object.
   */
  method CheckRules(rules: seq<Json>, evidence: Items, h: Host) returns (violations: Option<seq<Violation>>)
    ensures violations == RuleViolations(rules, evidence, h)
    ensures violations == Some([]) <==> forall i :: 0 <= i < |rules| ==> Backed(rules[i], evidence, h)
    ensures violations.None? <==> exists i :: 0 <= i < |rules| && Malformed(rules[i], evidence, h)
  {
    NoRuleViolations(rules, evidence, h);
    RaisedExactly(rules, evidence, h);
    hide Malformed;
    hide Backed;
    hide Get;
    hide Lookup;
    hide Truthy;
    var found: seq<Violation> := [];
    for i := 0 to |rules|
      invariant RuleViolations(rules[..i], evidence, h) == Some(found)
    {
      assert rules[..i + 1][..i] == rules[..i];
      var rule := rules[i];
      if !rule.Obj? {
        RaisedStays(rules, i + 1, evidence, h);
        return None;
      }
      if !Truthy(Get(rule.fields, "enabled")) {
        continue;
      }
      var workload := h.text(Get(rule.fields, "workload_id"));
      var e := match Lookup(evidence, workload) case None => Obj([]) case Some(j) => j;
      if !e.Obj? {
        RaisedStays(rules, i + 1, evidence, h);
        return None;
      }
      if Get(e.fields, "measurement_status") != CURRENT || Get(e.fields, "promotion_eligible") != Bool(true) {
        found := found + [RuleUnbacked(Get(rule.fields, "id"))];
      }
    }
    assert rules[..|rules|] == rules;
    return Some(found);
  }

  /** An exception at one rule ends the whole check. */
  lemma {:induction false} RaisedStays(rules: seq<Json>, i: nat, evidence: Items, h: Host)
    requires i <= |rules| && RuleViolations(rules[..i], evidence, h).None?
    ensures RuleViolations(rules, evidence, h).None?
    decreases |rules|
  {
    if i < |rules| {
      assert rules[..|rules| - 1][..i] == rules[..i];
      RaisedStays(rules[..|rules| - 1], i, evidence, h);
    } else {
      assert rules[..i] == rules;
    }
  }

  lemma LabelledGrows(workload: string, problems: seq<Problem>, d: nat)
    requires d < |problems|
    ensures Labelled(workload, problems[..d + 1])
            == Labelled(workload, problems[..d]) + [Evidence(workload, problems[d])]
  {
  }

  lemma NothingLabelled(workload: string)
    ensures Labelled(workload, []) == []
  {
  }

  method ValidateRegistryEvidence(product: Items, m: Measurement, h: Host) returns (r: Outcome)
    ensures r == Report(product, m, h)
    ensures r == Checked([]) <==> GateOk(product, m, h)
  {
    ReportExactly(product, m, h);
    hide GateOk;
    hide HeaderOk;
    hide HeaderViolations;
    hide Get;
    hide Lookup;
    hide Truthy;
    hide Labelled;
    hide EvidenceProblems;
    hide RuleViolations;
    var stop, violations := CheckHeader(product, m, h);
    if stop {
      return Checked(violations);
    }
    var field := EvidenceField(product);
    if !field.Obj? {
      return Checked(violations + [EvidenceNotAnObject]);
    }
    var evidence := field.fields;
    ghost var header := violations;
    for i := 0 to |evidence|
      invariant violations == header + EvidenceViolations(evidence[..i], m, h)
    {
      var problems := CheckEvidence(evidence[i].1, m, h);
      ghost var before := violations;
      NothingLabelled(evidence[i].0);
      for d := 0 to |problems|
        invariant violations == before + Labelled(evidence[i].0, problems[..d])
      {
        LabelledGrows(evidence[i].0, problems, d);
        violations := violations + [Evidence(evidence[i].0, problems[d])];
      }
      assert problems[..|problems|] == problems;
      assert evidence[..i + 1][..i] == evidence[..i];
    }
    assert evidence[..|evidence|] == evidence;
    var rules := RulesField(product);
    if rules.None? {
      return Raised;
    }
    var items := Iterate(rules.value);
    if items.None? {
      return Raised;
    }
    var unbacked := CheckRules(items.value, evidence, h);
    if unbacked.None? {
      return Raised;
    }
    return Checked(violations + unbacked.value);
  }

  lemma {:induction false} NoEvidenceViolations(evidence: Items, m: Measurement, h: Host)
    ensures EvidenceViolations(evidence, m, h) == [] <==>
            AllOk(evidence, m, h)
    decreases |evidence|
  {
    hide EvidenceOk;
    hide EvidenceProblems;
    if evidence == [] {
    } else {
      var init, last := evidence[..|evidence| - 1], evidence[|evidence| - 1];
      NoEvidenceViolations(init, m, h);
      EvidenceExactly(last.1, m, h);
      var a, b := EvidenceViolations(init, m, h), Labelled(last.0, EvidenceProblems(last.1, m, h));
      hide EvidenceViolations;
      assert |b| == |EvidenceProblems(last.1, m, h)|;
      assert |a + b| == 0 <==> |a| == 0 && |b| == 0;
      AllButLast(evidence, m, h);
    }
  }

  lemma AllButLast(evidence: Items, m: Measurement, h: Host)
    requires evidence != []
    ensures AllOk(evidence, m, h)
            <==> AllOk(evidence[..|evidence| - 1], m, h) && EvidenceOk(evidence[|evidence| - 1].1, m, h)
  {
    hide EvidenceOk;
    assert forall i :: 0 <= i < |evidence| - 1 ==> evidence[..|evidence| - 1][i] == evidence[i];
  }

  lemma NothingInEmpty(key: string)
    ensures Get([], key) == Null
  {
  }

  lemma {:induction false} NoRuleViolations(rules: seq<Json>, evidence: Items, h: Host)
    ensures RuleViolations(rules, evidence, h) == Some([]) <==>
            forall i :: 0 <= i < |rules| ==> Backed(rules[i], evidence, h)
    decreases |rules|
  {
    hide Get;
    hide Lookup;
    hide Truthy;
    if rules == [] {
    } else {
      var init, rule := rules[..|rules| - 1], rules[|rules| - 1];
      NoRuleViolations(init, evidence, h);
      NothingInEmpty("measurement_status");
      assert forall i :: 0 <= i < |init| ==> init[i] == rules[i];
      var before, after := RuleViolations(init, evidence, h), RuleViolations(rules, evidence, h);
      if before.Some? && after.Some? && after != before {
        assert |after.value| == |before.value| + 1;
      }
      assert after == Some([]) <==> before == Some([]) && Backed(rule, evidence, h);
      hide Backed;
      hide RuleViolations;
    }
  }

  lemma {:induction false} RaisedExactly(rules: seq<Json>, evidence: Items, h: Host)
    ensures RuleViolations(rules, evidence, h).None? <==>
            exists i :: 0 <= i < |rules| && Malformed(rules[i], evidence, h)
    decreases |rules|
  {
    hide Get;
    hide Lookup;
    hide Truthy;
    if rules == [] {
    } else {
      var init, rule := rules[..|rules| - 1], rules[|rules| - 1];
      RaisedExactly(init, evidence, h);
      assert RuleViolations(rules, evidence, h).None?
             <==> RuleViolations(init, evidence, h).None? || Malformed(rule, evidence, h);
      hide Malformed;
      hide RuleViolations;
      assert forall i :: 0 <= i < |init| ==> init[i] == rules[i];
    }
  }

  /** The report is empty exactly when everything the gate demands holds. */
  lemma ReportExactly(product: Items, m: Measurement, h: Host)
    ensures Report(product, m, h) == Checked([]) <==> GateOk(product, m, h)
  {
    hide Get;
    hide Lookup;
    hide EvidenceOk;
    hide Backed;
    hide EvidenceViolations;
    hide RuleViolations;
    if EvidenceField(product).Obj? {
      var evidence := EvidenceField(product).fields;
      NoEvidenceViolations(evidence, m, h);
      if RulesField(product).Some? && Iterate(RulesField(product).value).Some? {
        NoRuleViolations(Iterate(RulesField(product).value).value, evidence, h);
      }
    }
  }

  // ---------------------------------------------------------------- soundness

  lemma {:induction false} LookupIndex(fields: Items, key: string) returns (i: nat)
    requires Lookup(fields, key).Some?
    ensures i < |fields| && fields[i] == (key, Lookup(fields, key).value)
    decreases |fields|
  {
    if fields[0].0 == key {
      i := 0;
    } else {
      i := LookupIndex(fields[1..], key);
      i := i + 1;
    }
  }

  /**
    An empty report means that every enabled rule, repeated or not, is backed by evidence that is the
    current candidate, passing, faster than Python, flat in memory and bound to a known route and profile pair.
   */
  lemma EnabledRulesAreBacked(product: Items, m: Measurement, h: Host, rules: seq<Json>, rule: Json)
    requires Report(product, m, h) == Checked([])
    requires RulesField(product).Some? && Iterate(RulesField(product).value) == Some(rules)
    requires rule in rules && rule.Obj? && Truthy(Get(rule.fields, "enabled"))
    ensures EvidenceField(product).Obj?
    ensures var found := Lookup(EvidenceField(product).fields, h.text(Get(rule.fields, "workload_id")));
            && found.Some? && found.value.Obj?
            && CandidateComplete(found.value.fields)
            && BoundTo(found.value.fields, m, h)
            && h.candidate(found.value) == []
  {
    ReportExactly(product, m, h);
    hide Report;
    hide Get;
    hide Iterate;
    var evidence := EvidenceField(product).fields;
    var k :| 0 <= k < |rules| && rules[k] == rule;
    assert Backed(rules[k], evidence, h);
    var i := LookupIndex(evidence, h.text(Get(rule.fields, "workload_id")));
    assert EvidenceOk(evidence[i].1, m, h);
  }

  /**
    An empty report means that evidence is promotion eligible if and only if it is the verified current candidate,
    and that every piece of evidence, eligible or not, is bound to the contract.
   */
  lemma EligibleMeansCurrent(product: Items, m: Measurement, h: Host, key: string, j: Json)
    requires Report(product, m, h) == Checked([])
    requires EvidenceField(product).Obj? && (key, j) in EvidenceField(product).fields
    ensures j.Obj? && BoundTo(j.fields, m, h)
    ensures Get(j.fields, "promotion_eligible") == Bool(true) <==> Get(j.fields, "measurement_status") == CURRENT
    ensures Get(j.fields, "promotion_eligible") == Bool(true) || Get(j.fields, "promotion_eligible") == Bool(false)
    ensures Get(j.fields, "measurement_status") == CURRENT ==> CandidateComplete(j.fields) && h.candidate(j) == []
    ensures Get(j.fields, "measurement_status") == HISTORICAL ==>
              Get(j.fields, "identity_status") == Str("historical_pre_phase72")
  {
    ReportExactly(product, m, h);
    hide Report;
    hide Get;
    var evidence := EvidenceField(product).fields;
    var i :| 0 <= i < |evidence| && evidence[i] == (key, j);
    assert EvidenceOk(evidence[i].1, m, h);
  }
}
