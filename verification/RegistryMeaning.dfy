/**
  What the promotion gate means for the registry as data: the same results as in EvidenceGate, stated with nothing but
  membership of key-value pairs in the decoded JSON.
*/
module RegistryMeaning {
  import opened EvidenceGate
  import opened Shared

  // ---------------------------------------------------------------- reading objects as sets of pairs

  /** JSON objects have distinct keys, at every depth. */
  ghost predicate WellKeyed(j: Json) {
    match j
    case List(items) => forall i :: 0 <= i < |items| ==> WellKeyed(items[i])
    case Obj(fields) => Distinct(fields) && forall i :: 0 <= i < |fields| ==> WellKeyed(fields[i].1)
    case _ => true
  }

  ghost predicate Distinct(fields: Items) {
    forall i, j :: 0 <= i < j < |fields| ==> fields[i].0 != fields[j].0
  }

  ghost predicate Absent(fields: Items, key: string) {
    forall v :: (key, v) !in fields
  }

  /** What Python's `dict.get` finds: the value of the key, or None. */
  ghost predicate Reads(fields: Items, key: string, v: Json) {
    (key, v) in fields || (v == Null && Absent(fields, key))
  }

  lemma {:induction false} LookupMeans(fields: Items, key: string)
    requires Distinct(fields)
    ensures forall v :: Lookup(fields, key) == Some(v) <==> (key, v) in fields
    ensures Lookup(fields, key).None? <==> Absent(fields, key)
  {
    var r := Lookup(fields, key);
    forall v ensures r == Some(v) <==> (key, v) in fields {
      if (key, v) in fields {
        var i :| 0 <= i < |fields| && fields[i] == (key, v);
        var k :| 0 <= k < |fields| && fields[k] == (key, r.value);
      }
    }
  }

  lemma GetMeans(fields: Items, key: string)
    requires Distinct(fields)
    ensures forall v :: Get(fields, key) == v <==> Reads(fields, key, v)
    ensures forall v :: v != Null ==> (Get(fields, key) == v <==> (key, v) in fields)
  {
    LookupMeans(fields, key);
    hide Lookup;
  }

  // ---------------------------------------------------------------- one piece of evidence

  /** Everything the gate demands of one piece of evidence. */
  ghost predicate EvidenceMet(e: Items, m: Measurement, h: Host) {
    && !Absent(e, "measurement_contract_id") && !Absent(e, "route_id") && !Absent(e, "profile_pair")
    && !Absent(e, "measurement_status") && !Absent(e, "identity_status") && !Absent(e, "promotion_eligible")
    && (exists v :: ("measurement_contract_id", v) in e && h.same(v, m.id))
    && (exists v, i :: ("route_id", v) in e && 0 <= i < |m.routes| && h.text(m.routes[i]) == h.text(v))
    && (exists v, i :: ("profile_pair", v) in e && 0 <= i < |m.pairs| && h.text(m.pairs[i]) == h.text(v))
    && (("promotion_eligible", Bool(true)) in e || ("promotion_eligible", Bool(false)) in e)
    && (("measurement_status", Str("current_candidate_verified")) in e ==> Verified(e) && h.candidate(Obj(e)) == [])
    && (("measurement_status", Str("current_candidate_verified")) !in e ==> ("promotion_eligible", Bool(false)) in e)
    && (("measurement_status", Str("historical_scope_only")) in e ==>
          ("identity_status", Str("historical_pre_phase72")) in e)
  }

  /** The current candidate: passing, eligible, faster than Python and flat in memory. */
  ghost predicate Verified(e: Items) {
    && ("status", Str("pass")) in e
    && ("identity_status", Str("current_candidate")) in e
    && ("promotion_eligible", Bool(true)) in e
    && ("end_to_end_faster_than_python", Bool(true)) in e
    && ("rss_plateau", Bool(true)) in e
  }

  lemma VerifiedExactly(e: Items)
    requires Distinct(e)
    ensures CandidateComplete(e) <==> Verified(e)
  {
    GetMeans(e, "status");
    GetMeans(e, "identity_status");
    GetMeans(e, "promotion_eligible");
    GetMeans(e, "end_to_end_faster_than_python");
    GetMeans(e, "rss_plateau");
    hide Get;
  }

  lemma BoundExactly(e: Items, m: Measurement, h: Host)
    requires Distinct(e)
    requires !Absent(e, "measurement_contract_id") && !Absent(e, "route_id") && !Absent(e, "profile_pair")
    ensures BoundTo(e, m, h) <==>
            && (exists v :: ("measurement_contract_id", v) in e && h.same(v, m.id))
            && (exists v, i :: ("route_id", v) in e && 0 <= i < |m.routes| && h.text(m.routes[i]) == h.text(v))
            && (exists v, i :: ("profile_pair", v) in e && 0 <= i < |m.pairs| && h.text(m.pairs[i]) == h.text(v))
  {
    GetMeans(e, "measurement_contract_id");
    GetMeans(e, "route_id");
    GetMeans(e, "profile_pair");
    hide Get;
  }

  lemma KeysExactly(e: Items)
    requires Distinct(e)
    ensures (forall k :: 0 <= k < |RequiredKeys()| ==> Lookup(e, RequiredKeys()[k]).Some?) <==>
            && !Absent(e, "measurement_contract_id") && !Absent(e, "route_id") && !Absent(e, "profile_pair")
            && !Absent(e, "measurement_status") && !Absent(e, "identity_status") && !Absent(e, "promotion_eligible")
  {
    var keys := RequiredKeys();
    assert keys[0] == "measurement_contract_id" && keys[1] == "route_id" && keys[2] == "profile_pair";
    assert keys[3] == "measurement_status" && keys[4] == "identity_status" && keys[5] == "promotion_eligible";
    forall k | 0 <= k < |keys| ensures Lookup(e, keys[k]).Some? <==> !Absent(e, keys[k]) {
      LookupMeans(e, keys[k]);
    }
    hide Lookup;
    hide Absent;
  }

  lemma StatusExactly(e: Items, h: Host)
    requires Distinct(e) && !Absent(e, "promotion_eligible")
    ensures var status, eligible := Get(e, "measurement_status"), Get(e, "promotion_eligible");
            && eligible.Bool?
            && (status == CURRENT ==> CandidateComplete(e) && h.candidate(Obj(e)) == [])
            && (status != CURRENT ==> eligible == Bool(false))
            && (status == HISTORICAL ==> Get(e, "identity_status") == Str("historical_pre_phase72"))
            <==>
            && (("promotion_eligible", Bool(true)) in e || ("promotion_eligible", Bool(false)) in e)
            && (("measurement_status", Str("current_candidate_verified")) in e ==>
                  Verified(e) && h.candidate(Obj(e)) == [])
            && (("measurement_status", Str("current_candidate_verified")) !in e ==>
                  ("promotion_eligible", Bool(false)) in e)
            && (("measurement_status", Str("historical_scope_only")) in e ==>
                  ("identity_status", Str("historical_pre_phase72")) in e)
  {
    VerifiedExactly(e);
    GetMeans(e, "promotion_eligible");
    GetMeans(e, "measurement_status");
    GetMeans(e, "identity_status");
    assert CURRENT == Str("current_candidate_verified") && HISTORICAL == Str("historical_scope_only");
    hide Get;
    hide CandidateComplete;
    hide Verified;
    hide Reads;
    hide Absent;
    hide Distinct;
  }

  /** Every demand on one piece of evidence. */
  lemma EvidenceMetExactly(e: Items, m: Measurement, h: Host)
    requires Distinct(e)
    ensures EvidenceOk(Obj(e), m, h) <==> EvidenceMet(e, m, h)
  {
    KeysExactly(e);
    if !Absent(e, "measurement_contract_id") && !Absent(e, "route_id") && !Absent(e, "profile_pair") {
      BoundExactly(e, m, h);
    }
    if !Absent(e, "promotion_eligible") {
      StatusExactly(e, h);
    }
    hide Get;
    hide Lookup;
    hide BoundTo;
    hide CandidateComplete;
    hide RequiredKeys;
    hide Verified;
    hide Absent;
    hide Distinct;
  }

  // ---------------------------------------------------------------- the whole registry

  /** The registry declares this measurement contract and its path. */
  ghost predicate HeaderMet(product: Items, m: Measurement, h: Host) {
    exists d :: ("measurement_contract", Obj(d)) in product && DeclarationMet(d, m, h)
  }

  ghost predicate DeclarationMet(d: Items, m: Measurement, h: Host) {
    && (exists v :: Reads(d, "id", v) && h.same(v, m.id))
    && ("path", Str("benchmarks/native_event/manifests/phase72_measurement_contract_v1.json")) in d
  }

  /** The registry's evidence by workload; none when the registry has no such key. */
  ghost predicate HasEvidence(product: Items, es: Items) {
    ("performance_evidence", Obj(es)) in product || (Absent(product, "performance_evidence") && es == [])
  }

  /** The registry's promotion rules; none when the policy or its rules are missing or empty. */
  ghost predicate HasRules(product: Items, rs: seq<Json>) {
    || (Absent(product, "promotion_policy") && rs == [])
    || exists ps :: ("promotion_policy", Obj(ps)) in product && PolicyRules(ps, rs)
  }

  ghost predicate PolicyRules(ps: Items, rs: seq<Json>) {
    || ("rules", List(rs)) in ps
    || (rs == [] && (Absent(ps, "rules") || ("rules", Str("")) in ps || ("rules", Obj([])) in ps))
  }

  /** A rule is switched on by any value that is not empty, zero or false. */
  ghost predicate Enabled(fs: Items) {
    exists v :: ("enabled", v) in fs
                && v != Null && v != Bool(false) && v != Num(0.0) && v != Str("") && v != List([]) && v != Obj([])
  }

  ghost predicate RuleMet(rule: Json, es: Items, h: Host) {
    rule.Obj? && (Enabled(rule.fields) ==> exists w :: Reads(rule.fields, "workload_id", w) && Promoted(es, h.text(w)))
  }

  /** The workload has evidence that is the verified current candidate and eligible. */
  ghost predicate Promoted(es: Items, workload: string) {
    exists e :: (workload, Obj(e)) in es
                && ("measurement_status", Str("current_candidate_verified")) in e
                && ("promotion_eligible", Bool(true)) in e
  }

  ghost predicate AllEvidenceMet(es: Items, m: Measurement, h: Host) {
    forall kv :: kv in es ==> kv.1.Obj? && EvidenceMet(kv.1.fields, m, h)
  }

  ghost predicate RegistryMet(product: Items, m: Measurement, h: Host) {
    && HeaderMet(product, m, h)
    && (exists es, rs :: HasEvidence(product, es) && HasRules(product, rs) && AllEvidenceMet(es, m, h)
                         && forall rule :: rule in rs ==> RuleMet(rule, es, h))
  }

  lemma HeaderExactly(product: Items, m: Measurement, h: Host)
    requires WellKeyed(Obj(product))
    ensures HeaderOk(product, m, h) <==> HeaderMet(product, m, h)
  {
    GetMeans(product, "measurement_contract");
    var d := Get(product, "measurement_contract");
    if d.Obj? {
      MemberKeyed(product, "measurement_contract", d);
      GetMeans(d.fields, "id");
      GetMeans(d.fields, "path");
      assert CONTRACT_PATH == "benchmarks/native_event/manifests/phase72_measurement_contract_v1.json";
      assert DeclarationMet(d.fields, m, h)
             <==> h.same(Get(d.fields, "id"), m.id) && Get(d.fields, "path") == Str(CONTRACT_PATH);
    }
    hide Get;
    hide DeclarationMet;
  }

  lemma MemberKeyed(fields: Items, key: string, j: Json)
    requires WellKeyed(Obj(fields)) && (key, j) in fields
    ensures WellKeyed(j)
  {
    var i :| 0 <= i < |fields| && fields[i] == (key, j);
    assert WellKeyed(fields[i].1);
  }

  lemma EvidenceFieldExactly(product: Items)
    requires WellKeyed(Obj(product))
    ensures EvidenceField(product).Obj? ==> HasEvidence(product, EvidenceField(product).fields)
    ensures forall es :: HasEvidence(product, es) ==> EvidenceField(product) == Obj(es)
    ensures EvidenceField(product).Obj? ==> WellKeyed(EvidenceField(product))
  {
    LookupMeans(product, "performance_evidence");
    var found := Lookup(product, "performance_evidence");
    if found.Some? {
      MemberKeyed(product, "performance_evidence", found.value);
    }
    hide Lookup;
  }

  lemma RulesFieldExactly(product: Items)
    requires WellKeyed(Obj(product))
    ensures forall rs :: HasRules(product, rs) ==>
              RulesField(product).Some? && Iterate(RulesField(product).value) == Some(rs)
    ensures RulesField(product).Some? && Iterate(RulesField(product).value).Some? ==>
              var rs := Iterate(RulesField(product).value).value;
              || (HasRules(product, rs) && forall rule :: rule in rs ==> WellKeyed(rule))
              || exists rule :: rule in rs && !rule.Obj?
  {
    LookupMeans(product, "promotion_policy");
    var policy := Lookup(product, "promotion_policy");
    if policy.Some? && policy.value.Obj? {
      MemberKeyed(product, "promotion_policy", policy.value);
      PolicyExactly(policy.value.fields);
    }
    hide Lookup;
    hide Iterate;
  }

  function RulesOf(ps: Items): Json {
    match Lookup(ps, "rules") case None => List([]) case Some(j) => j
  }

  /** A `for` loop over a list visits all of it; over a non-empty text or object it visits what is no rule. */
  lemma PolicyExactly(ps: Items)
    requires WellKeyed(Obj(ps))
    ensures forall rs :: PolicyRules(ps, rs) ==> Iterate(RulesOf(ps)) == Some(rs)
    ensures Iterate(RulesOf(ps)).Some? ==>
              var rs := Iterate(RulesOf(ps)).value;
              || (PolicyRules(ps, rs) && forall rule :: rule in rs ==> WellKeyed(rule))
              || exists rule :: rule in rs && !rule.Obj?
  {
    LookupMeans(ps, "rules");
    var found := Lookup(ps, "rules");
    if found.Some? {
      MemberKeyed(ps, "rules", found.value);
    }
    hide Lookup;
    var rules := RulesOf(ps);
    match rules
    case List(items) =>
      forall rule | rule in items ensures WellKeyed(rule) {
        var i :| 0 <= i < |items| && items[i] == rule;
      }
    case Str(s) =>
      if s != "" {
        assert Iterate(rules).value[0] in Iterate(rules).value && !Iterate(rules).value[0].Obj?;
      }
    case Obj(fields) =>
      if fields != [] {
        assert Iterate(rules).value[0] in Iterate(rules).value && !Iterate(rules).value[0].Obj?;
      }
    case _ =>
  }

  lemma RuleExactly(rule: Json, es: Items, h: Host)
    requires WellKeyed(rule) && WellKeyed(Obj(es))
    ensures Backed(rule, es, h) <==> RuleMet(rule, es, h)
  {
    if rule.Obj? {
      GetMeans(rule.fields, "enabled");
      GetMeans(rule.fields, "workload_id");
      var workload := h.text(Get(rule.fields, "workload_id"));
      PromotedExactly(es, workload);
      EnabledExactly(rule.fields);
      assert RuleMet(rule, es, h) <==> (Enabled(rule.fields) ==> Promoted(es, workload));
      hide Enabled;
      hide Promoted;
      hide RuleMet;
      hide Get;
      hide Lookup;
      hide Truthy;
    }
  }

  lemma EnabledExactly(fs: Items)
    requires Distinct(fs)
    ensures Truthy(Get(fs, "enabled")) <==> Enabled(fs)
  {
    GetMeans(fs, "enabled");
    var v := Get(fs, "enabled");
    hide Get;
    assert Truthy(v) <==> v != Null && v != Bool(false) && v != Num(0.0) && v != Str("") && v != List([])
                          && v != Obj([]);
  }

  lemma PromotedExactly(es: Items, workload: string)
    requires WellKeyed(Obj(es))
    ensures Promoted(es, workload) <==>
            var found := Lookup(es, workload);
            && found.Some? && found.value.Obj?
            && Get(found.value.fields, "measurement_status") == CURRENT
            && Get(found.value.fields, "promotion_eligible") == Bool(true)
  {
    LookupMeans(es, workload);
    var found := Lookup(es, workload);
    if found.Some? && found.value.Obj? {
      MemberKeyed(es, workload, found.value);
      GetMeans(found.value.fields, "measurement_status");
      GetMeans(found.value.fields, "promotion_eligible");
    }
    assert CURRENT == Str("current_candidate_verified");
    hide Get;
    hide Lookup;
  }

  lemma AllEvidenceExactly(es: Items, m: Measurement, h: Host)
    requires WellKeyed(Obj(es))
    ensures AllOk(es, m, h) <==> AllEvidenceMet(es, m, h)
  {
    forall i | 0 <= i < |es|
      ensures EvidenceOk(es[i].1, m, h) <==> es[i].1.Obj? && EvidenceMet(es[i].1.fields, m, h)
    {
      if es[i].1.Obj? {
        assert WellKeyed(es[i].1);
        EvidenceMetExactly(es[i].1.fields, m, h);
      }
    }
    hide EvidenceMet;
    hide WellKeyed;
    hide Distinct;
    if AllOk(es, m, h) {
      forall kv | kv in es ensures kv.1.Obj? && EvidenceMet(kv.1.fields, m, h) {
        var i :| 0 <= i < |es| && es[i] == kv;
        assert EvidenceOk(es[i].1, m, h);
      }
    }
    hide EvidenceOk;
  }

  /** The report on a registry is empty if and only if the registry, as data, meets every demand. */
  lemma RegistryExactly(product: Items, m: Measurement, h: Host)
    requires WellKeyed(Obj(product))
    ensures Report(product, m, h) == Checked([]) <==> RegistryMet(product, m, h)
  {
    ReportExactly(product, m, h);
    HeaderExactly(product, m, h);
    EvidenceFieldExactly(product);
    RulesFieldExactly(product);
    hide Report;
    hide HeaderOk;
    hide HeaderMet;
    hide WellKeyed;
    if GateOk(product, m, h) {
      GateMeetsData(product, m, h);
    }
    if RegistryMet(product, m, h) {
      DataMeetsGate(product, m, h);
    }
  }

  lemma GateMeetsData(product: Items, m: Measurement, h: Host)
    requires WellKeyed(Obj(product)) && GateOk(product, m, h)
    ensures RegistryMet(product, m, h)
  {
    HeaderExactly(product, m, h);
    EvidenceFieldExactly(product);
    RulesFieldExactly(product);
    hide WellKeyed;
    hide HeaderOk;
    hide HeaderMet;
    hide EvidenceField;
    hide RulesField;
    hide Iterate;
    hide HasRules;
    hide HasEvidence;
    var es := EvidenceField(product).fields;
    var rs := Iterate(RulesField(product).value).value;
    AllEvidenceExactly(es, m, h);
    hide AllOk;
    hide AllEvidenceMet;
    forall rule | rule in rs ensures Backed(rule, es, h) {
      var k :| 0 <= k < |rs| && rs[k] == rule;
      assert Backed(rs[k], es, h);
    }
    assert HasRules(product, rs) && forall rule :: rule in rs ==> WellKeyed(rule) by {
      forall rule | rule in rs ensures rule.Obj? {
        assert Backed(rule, es, h);
      }
    }
    hide Backed;
    forall rule | rule in rs ensures RuleMet(rule, es, h) {
      RuleExactly(rule, es, h);
    }
  }

  lemma DataMeetsGate(product: Items, m: Measurement, h: Host)
    requires WellKeyed(Obj(product)) && RegistryMet(product, m, h)
    ensures GateOk(product, m, h)
  {
    HeaderExactly(product, m, h);
    EvidenceFieldExactly(product);
    RulesFieldExactly(product);
    hide WellKeyed;
    hide HeaderOk;
    hide HeaderMet;
    hide EvidenceField;
    hide RulesField;
    hide Iterate;
    hide HasRules;
    hide HasEvidence;
    var es: Items, rs: seq<Json> :|
      HasEvidence(product, es) && HasRules(product, rs) && AllEvidenceMet(es, m, h)
      && forall rule :: rule in rs ==> RuleMet(rule, es, h);
    AllEvidenceExactly(es, m, h);
    hide AllOk;
    hide AllEvidenceMet;
    forall rule | rule in rs ensures rule.Obj? {
      assert RuleMet(rule, es, h);
    }
    hide RuleMet;
    forall i | 0 <= i < |rs| ensures Backed(rs[i], es, h) {
      assert rs[i] in rs;
      RuleExactly(rs[i], es, h);
    }
    hide Backed;
  }

  // ---------------------------------------------------------------- soundness on the registry as data

  lemma RulesUnique(product: Items, ps: Items, rs: seq<Json>, all: seq<Json>)
    requires WellKeyed(Obj(product)) && HasRules(product, all)
    requires ("promotion_policy", Obj(ps)) in product && ("rules", List(rs)) in ps
    ensures all == rs
  {
    assert HasRules(product, rs) by {
      assert PolicyRules(ps, rs);
    }
    hide HasRules;
    RulesFieldExactly(product);
    hide RulesField;
    hide Iterate;
    hide WellKeyed;
  }

  lemma EnabledIsPromoted(fs: Items, es: Items, h: Host) returns (w: Json, e: Items)
    requires RuleMet(Obj(fs), es, h) && ("enabled", Bool(true)) in fs
    ensures Reads(fs, "workload_id", w) && (h.text(w), Obj(e)) in es
    ensures ("measurement_status", Str("current_candidate_verified")) in e
  {
    assert Enabled(fs);
    hide Enabled;
    hide Reads;
    w :| Reads(fs, "workload_id", w) && Promoted(es, h.text(w));
    e :| (h.text(w), Obj(e)) in es
         && ("measurement_status", Str("current_candidate_verified")) in e
         && ("promotion_eligible", Bool(true)) in e;
  }

  lemma MetInAll(es: Items, m: Measurement, h: Host, workload: string, e: Items)
    requires AllEvidenceMet(es, m, h) && (workload, Obj(e)) in es
    ensures EvidenceMet(e, m, h)
  {
    hide EvidenceMet;
    assert EvidenceMet((workload, Obj(e)).1.fields, m, h);
  }

  lemma MetAndVerified(e: Items, m: Measurement, h: Host)
    requires EvidenceMet(e, m, h) && ("measurement_status", Str("current_candidate_verified")) in e
    ensures ("status", Str("pass")) in e && ("identity_status", Str("current_candidate")) in e
    ensures ("promotion_eligible", Bool(true)) in e && ("end_to_end_faster_than_python", Bool(true)) in e
    ensures ("rss_plateau", Bool(true)) in e && h.candidate(Obj(e)) == []
  {
    hide Absent;
  }

  lemma RegistryParts(product: Items, m: Measurement, h: Host) returns (es: Items, rs: seq<Json>)
    requires RegistryMet(product, m, h)
    ensures HasEvidence(product, es) && HasRules(product, rs) && AllEvidenceMet(es, m, h)
    ensures forall rule :: rule in rs ==> RuleMet(rule, es, h)
  {
    hide HeaderMet;
    hide HasEvidence;
    hide HasRules;
    hide AllEvidenceMet;
    hide RuleMet;
    es, rs :| HasEvidence(product, es) && HasRules(product, rs) && AllEvidenceMet(es, m, h)
              && forall rule :: rule in rs ==> RuleMet(rule, es, h);
  }

  lemma SomeEvidence(product: Items, es: Items, workload: string, e: Items)
    requires HasEvidence(product, es) && (workload, Obj(e)) in es
    ensures ("performance_evidence", Obj(es)) in product
  {
  }

  /**
    If the report is empty, every enabled rule of the registry's policy has evidence among the registry's evidence
    that is the verified current candidate: passing, eligible, faster than Python and flat in memory.
   */
  lemma EnabledRuleHasEvidence(product: Items, m: Measurement, h: Host, ps: Items, rs: seq<Json>, fs: Items)
    returns (w: Json, es: Items, e: Items)
    requires WellKeyed(Obj(product)) && Report(product, m, h) == Checked([])
    requires ("promotion_policy", Obj(ps)) in product && ("rules", List(rs)) in ps
    requires Obj(fs) in rs && ("enabled", Bool(true)) in fs
    ensures Reads(fs, "workload_id", w)
    ensures ("performance_evidence", Obj(es)) in product && (h.text(w), Obj(e)) in es
    ensures ("status", Str("pass")) in e && ("identity_status", Str("current_candidate")) in e
    ensures ("promotion_eligible", Bool(true)) in e && ("end_to_end_faster_than_python", Bool(true)) in e
    ensures ("rss_plateau", Bool(true)) in e && h.candidate(Obj(e)) == []
    ensures EvidenceMet(e, m, h)
  {
    hide *;
    RegistryExactly(product, m, h);
    var all: seq<Json>;
    es, all := RegistryParts(product, m, h);
    RulesUnique(product, ps, rs, all);
    w, e := EnabledIsPromoted(fs, es, h);
    SomeEvidence(product, es, h.text(w), e);
    MetInAll(es, m, h, h.text(w), e);
    MetAndVerified(e, m, h);
  }

  // ---------------------------------------------------------------- what each finding says

  /** The kinds of problems each part of the checks can report. */
  lemma Kinds(e: Items, m: Measurement, h: Host)
    requires Distinct(e)
    ensures forall p :: p in MissingKeys(e, RequiredKeys()) ==> p.Missing?
    ensures forall p :: p in BindingProblems(e, m, h) ==> p.ContractMismatch? || p.UnknownRoute? || p.UnknownPair?
    ensures forall p :: p in StatusPart(e, h) ==>
              p.EligibilityNotBoolean? || p.CandidateIncomplete? || p.CandidateViolation? || p.NonCurrentEligible?
              || p.HistoricalIdentity?
  {
    MissingMean(e);
    BindingMean(e, m, h);
    StatusMean(e, h);
    StatusPartIs(e, h);
    hide *;
  }

  /** Exactly the required keys that the evidence lacks are reported missing. */
  lemma MissingReported(e: Items, m: Measurement, h: Host)
    requires Distinct(e)
    ensures NotAnObject !in EvidenceProblems(Obj(e), m, h)
    ensures forall k :: Missing(k) in EvidenceProblems(Obj(e), m, h) <==>
              && Absent(e, k)
              && k in ["measurement_contract_id", "route_id", "profile_pair", "measurement_status", "identity_status",
                       "promotion_eligible"]
  {
    hide *;
    ProblemParts(e, m, h);
    Kinds(e, m, h);
    MissingMean(e);
  }

  /** A wrong contract, an unknown route and an unknown profile pair are each reported, and nothing else as them. */
  lemma BindingReported(e: Items, m: Measurement, h: Host)
    requires Distinct(e)
    ensures ContractMismatch in EvidenceProblems(Obj(e), m, h) <==>
            !exists v :: Reads(e, "measurement_contract_id", v) && h.same(v, m.id)
    ensures UnknownRoute in EvidenceProblems(Obj(e), m, h) <==>
            !exists v, i :: Reads(e, "route_id", v) && 0 <= i < |m.routes| && h.text(m.routes[i]) == h.text(v)
    ensures UnknownPair in EvidenceProblems(Obj(e), m, h) <==>
            !exists v, i :: Reads(e, "profile_pair", v) && 0 <= i < |m.pairs| && h.text(m.pairs[i]) == h.text(v)
  {
    hide *;
    ProblemParts(e, m, h);
    Kinds(e, m, h);
    BindingMean(e, m, h);
  }

  /** What is reported about the status of the evidence. */
  lemma StatusReported(e: Items, m: Measurement, h: Host)
    requires Distinct(e)
    ensures var ps := EvidenceProblems(Obj(e), m, h);
            && (EligibilityNotBoolean in ps <==> !Eligibility(e))
            && (CandidateIncomplete in ps <==> Eligibility(e) && Current(e) && !Verified(e))
            && (forall d :: CandidateViolation(d) in ps <==> Eligibility(e) && Current(e) && d in h.candidate(Obj(e)))
            && (NonCurrentEligible in ps <==> !Current(e) && ("promotion_eligible", Bool(true)) in e)
            && (HistoricalIdentity in ps <==>
                  && Eligibility(e) && ("measurement_status", Str("historical_scope_only")) in e
                  && ("identity_status", Str("historical_pre_phase72")) !in e)
  {
    hide *;
    ProblemParts(e, m, h);
    Kinds(e, m, h);
    StatusMean(e, h);
    StatusPartIs(e, h);
  }

  ghost function StatusPart(e: Items, h: Host): seq<Problem> {
    if !Get(e, "promotion_eligible").Bool? then [EligibilityNotBoolean] else StatusProblems(Obj(e), h)
  }

  lemma StatusPartIs(e: Items, h: Host)
    ensures Get(e, "promotion_eligible").Bool? ==> StatusPart(e, h) == StatusProblems(Obj(e), h)
    ensures !Get(e, "promotion_eligible").Bool? ==> StatusPart(e, h) == [EligibilityNotBoolean]
  {
  }

  lemma ProblemParts(e: Items, m: Measurement, h: Host)
    ensures forall p :: p in EvidenceProblems(Obj(e), m, h) <==>
              p in MissingKeys(e, RequiredKeys()) || p in BindingProblems(e, m, h) || p in StatusPart(e, h)
  {
    var a, b, c := MissingKeys(e, RequiredKeys()), BindingProblems(e, m, h), StatusPart(e, h);
    assert EvidenceProblems(Obj(e), m, h) == a + b + c;
    hide *;
    forall p ensures p in a + b + c <==> p in a || p in b || p in c {
      assert p in a + b + c <==> p in a + b || p in c;
    }
  }

  ghost predicate Eligibility(e: Items) {
    ("promotion_eligible", Bool(true)) in e || ("promotion_eligible", Bool(false)) in e
  }

  ghost predicate Current(e: Items) {
    ("measurement_status", Str("current_candidate_verified")) in e
  }

  lemma {:induction false} MissingMembers(e: Items, keys: seq<string>)
    requires Distinct(e)
    ensures forall p :: p in MissingKeys(e, keys) <==> p.Missing? && p.key in keys && Absent(e, p.key)
    decreases |keys|
  {
    if keys == [] {
    } else {
      var init, last := keys[..|keys| - 1], keys[|keys| - 1];
      assert keys == init + [last];
      MissingMembers(e, init);
      LookupMeans(e, last);
      hide Absent;
      hide Lookup;
    }
  }

  lemma MissingMean(e: Items)
    requires Distinct(e)
    ensures forall p :: p in MissingKeys(e, RequiredKeys()) <==>
              && p.Missing? && Absent(e, p.key)
              && p.key in ["measurement_contract_id", "route_id", "profile_pair", "measurement_status",
                           "identity_status", "promotion_eligible"]
  {
    MissingMembers(e, RequiredKeys());
    hide MissingKeys;
    hide Absent;
  }

  lemma BindingMean(e: Items, m: Measurement, h: Host)
    requires Distinct(e)
    ensures var ps := BindingProblems(e, m, h);
            && (forall p :: p in ps ==> p == ContractMismatch || p == UnknownRoute || p == UnknownPair)
            && (ContractMismatch in ps <==> !exists v :: Reads(e, "measurement_contract_id", v) && h.same(v, m.id))
            && (UnknownRoute in ps <==>
                  !exists v, i :: Reads(e, "route_id", v) && 0 <= i < |m.routes| && h.text(m.routes[i]) == h.text(v))
            && (UnknownPair in ps <==>
                  !exists v, i :: Reads(e, "profile_pair", v) && 0 <= i < |m.pairs| && h.text(m.pairs[i]) == h.text(v))
  {
    GetMeans(e, "measurement_contract_id");
    GetMeans(e, "route_id");
    GetMeans(e, "profile_pair");
    hide Get;
    hide Reads;
  }

  lemma StatusMean(e: Items, h: Host)
    requires Distinct(e)
    ensures Get(e, "promotion_eligible").Bool? <==> Eligibility(e)
    ensures !Eligibility(e) ==> ("promotion_eligible", Bool(true)) !in e
    ensures Eligibility(e) ==>
              var ps := StatusProblems(Obj(e), h);
              && (forall p :: p in ps ==> p.CandidateIncomplete? || p.CandidateViolation? || p.NonCurrentEligible?
                                          || p.HistoricalIdentity?)
              && (CandidateIncomplete in ps <==> Current(e) && !Verified(e))
              && (forall d :: CandidateViolation(d) in ps <==> Current(e) && d in h.candidate(Obj(e)))
              && (NonCurrentEligible in ps <==> !Current(e) && ("promotion_eligible", Bool(true)) in e)
              && (HistoricalIdentity in ps <==>
                    && ("measurement_status", Str("historical_scope_only")) in e
                    && ("identity_status", Str("historical_pre_phase72")) !in e)
  {
    hide *;
    StatusFacts(e);
    VerifiedExactly(e);
    StatusMembers(Obj(e), h);
  }

  /** The conditions of the status checks, as pairs in the evidence. */
  lemma StatusFacts(e: Items)
    requires Distinct(e)
    ensures var status, eligible := Get(e, "measurement_status"), Get(e, "promotion_eligible");
            && (eligible.Bool? <==> Eligibility(e))
            && (!Eligibility(e) ==> ("promotion_eligible", Bool(true)) !in e)
            && (Eligibility(e) ==> (Truthy(eligible) <==> ("promotion_eligible", Bool(true)) in e))
            && (status == CURRENT <==> Current(e))
            && (status == HISTORICAL <==> ("measurement_status", Str("historical_scope_only")) in e)
    ensures Get(e, "identity_status") == Str("historical_pre_phase72")
            <==> ("identity_status", Str("historical_pre_phase72")) in e
  {
    GetMeans(e, "promotion_eligible");
    GetMeans(e, "measurement_status");
    GetMeans(e, "identity_status");
    assert CURRENT == Str("current_candidate_verified") && HISTORICAL == Str("historical_scope_only");
    hide Get;
    hide Reads;
    hide Absent;
    hide Distinct;
  }

  lemma StatusMembers(j: Json, h: Host)
    requires j.Obj?
    ensures var status, eligible := Get(j.fields, "measurement_status"), Get(j.fields, "promotion_eligible");
            forall p :: p in StatusProblems(j, h) <==>
              match p
              case CandidateIncomplete => status == CURRENT && !CandidateComplete(j.fields)
              case CandidateViolation(d) => status == CURRENT && d in h.candidate(j)
              case NonCurrentEligible => status != CURRENT && Truthy(eligible)
              case HistoricalIdentity =>
                status == HISTORICAL && Get(j.fields, "identity_status") != Str("historical_pre_phase72")
              case _ => false
  {
    DetailsMean(h.candidate(j));
    hide Get;
    hide CandidateComplete;
    hide Details;
    hide Truthy;
  }

  lemma DetailsMean(ds: seq<string>)
    ensures forall p :: p in Details(ds) <==> p.CandidateViolation? && p.detail in ds
  {
    forall p ensures p in Details(ds) <==> p.CandidateViolation? && p.detail in ds {
      if p.CandidateViolation? && p.detail in ds {
        var i :| 0 <= i < |ds| && ds[i] == p.detail;
        assert Details(ds)[i] == p;
      }
    }
  }

  /** The findings about evidence name the workload and its problem. */
  lemma {:induction false} EvidenceListed(es: Items, m: Measurement, h: Host)
    ensures forall v :: v in EvidenceViolations(es, m, h) <==>
              v.Evidence? && exists j :: (v.workload, j) in es && v.problem in EvidenceProblems(j, m, h)
    decreases |es|
  {
    hide EvidenceProblems;
    if es == [] {
    } else {
      var init, last := es[..|es| - 1], es[|es| - 1];
      assert es == init + [last];
      EvidenceListed(init, m, h);
      LabelledMean(last.0, EvidenceProblems(last.1, m, h));
      hide Labelled;
      forall v
        ensures v in EvidenceViolations(es, m, h) <==>
                v.Evidence? && exists j :: (v.workload, j) in es && v.problem in EvidenceProblems(j, m, h)
      {
        if v.Evidence? && v.workload == last.0 && v.problem in EvidenceProblems(last.1, m, h) {
          assert (v.workload, last.1) in es;
        }
        if v.Evidence? && exists j :: (v.workload, j) in es && v.problem in EvidenceProblems(j, m, h) {
          var j :| (v.workload, j) in es && v.problem in EvidenceProblems(j, m, h);
          assert (v.workload, j) in init || (v.workload, j) == last;
        }
      }
    }
  }

  lemma LabelledMean(workload: string, problems: seq<Problem>)
    ensures forall v :: v in Labelled(workload, problems) <==>
              v.Evidence? && v.workload == workload && v.problem in problems
  {
    forall v
      ensures v in Labelled(workload, problems) <==> v.Evidence? && v.workload == workload && v.problem in problems
    {
      if v.Evidence? && v.workload == workload && v.problem in problems {
        var i :| 0 <= i < |problems| && problems[i] == v.problem;
        assert Labelled(workload, problems)[i] == v;
      }
    }
  }

  /** An enabled rule without verified, eligible evidence for its workload. */
  ghost predicate Unbacked(rule: Json, es: Items, h: Host) {
    && rule.Obj? && Enabled(rule.fields)
    && !exists w :: Reads(rule.fields, "workload_id", w) && Promoted(es, h.text(w))
  }

  /** The findings about rules name exactly the unbacked ones, whatever their number and place. */
  lemma {:induction false} RulesListed(rules: seq<Json>, es: Items, h: Host)
    requires WellKeyed(Obj(es)) && (forall rule :: rule in rules ==> WellKeyed(rule))
    requires RuleViolations(rules, es, h).Some?
    ensures forall v :: v in RuleViolations(rules, es, h).value <==>
              && v.RuleUnbacked?
              && exists rule :: rule in rules && Unbacked(rule, es, h) && Reads(rule.fields, "id", v.rule)
    decreases |rules|
  {
    hide WellKeyed;
    hide Reads;
    hide Unbacked;
    hide Get;
    hide Lookup;
    hide Truthy;
    if rules == [] {
    } else {
      var init, last := rules[..|rules| - 1], rules[|rules| - 1];
      assert rules == init + [last];
      RulesListed(init, es, h);
      OneRuleListed(init, last, es, h);
      hide RuleViolations;
    }
  }

  lemma OneRuleListed(init: seq<Json>, last: Json, es: Items, h: Host)
    requires WellKeyed(Obj(es)) && WellKeyed(last)
    requires RuleViolations(init + [last], es, h).Some?
    ensures last.Obj? && RuleViolations(init, es, h).Some?
    ensures forall v :: v in RuleViolations(init + [last], es, h).value <==>
              || v in RuleViolations(init, es, h).value
              || (v.RuleUnbacked? && Unbacked(last, es, h) && Reads(last.fields, "id", v.rule))
  {
    var rules := init + [last];
    assert rules[..|rules| - 1] == init;
    GetMeans(last.fields, "id");
    RuleExactly(last, es, h);
    EnabledExactly(last.fields);
    NothingInEmpty("measurement_status");
    assert Unbacked(last, es, h) <==> Truthy(Get(last.fields, "enabled")) && !Backed(last, es, h);
    hide Get;
    hide Lookup;
    hide Truthy;
    hide Reads;
    hide Unbacked;
    hide WellKeyed;
  }

  /** Every finding of a report, by what in the registry causes it. */
  lemma FindingsMean(product: Items, m: Measurement, h: Host, d: Items, es: Items, rs: seq<Json>, vs: seq<Violation>)
    requires WellKeyed(Obj(product)) && Report(product, m, h) == Checked(vs)
    requires ("measurement_contract", Obj(d)) in product && HasEvidence(product, es) && HasRules(product, rs)
    ensures ContractIdMismatch in vs <==> !exists v :: Reads(d, "id", v) && h.same(v, m.id)
    ensures ContractPathMismatch in vs <==>
            ("path", Str("benchmarks/native_event/manifests/phase72_measurement_contract_v1.json")) !in d
    ensures forall w, p :: Evidence(w, p) in vs <==> exists j :: (w, j) in es && p in EvidenceProblems(j, m, h)
    ensures forall x :: RuleUnbacked(x) in vs <==>
              exists rule :: rule in rs && Unbacked(rule, es, h) && Reads(rule.fields, "id", x)
    ensures NoDeclaration !in vs && EvidenceNotAnObject !in vs
  {
    hide *;
    var header, found, unbacked := ReportParts(product, m, h, d, es, rs, vs);
    HeaderListed(product, m, h, d);
    EvidenceListed(es, m, h);
    EvidenceKeyed(product, es);
    RulesKeyed(product, rs);
    RulesListed(rs, es, h);
    ThreeParts(header, found, unbacked);
  }

  lemma ThreeParts(a: seq<Violation>, b: seq<Violation>, c: seq<Violation>)
    ensures forall v :: v in a + b + c <==> v in a || v in b || v in c
  {
    forall v ensures v in a + b + c <==> v in a || v in b || v in c {
      assert v in a + b + c <==> v in a + b || v in c;
    }
  }

  lemma EvidenceKeyed(product: Items, es: Items)
    requires WellKeyed(Obj(product)) && HasEvidence(product, es)
    ensures WellKeyed(Obj(es))
  {
    if es != [] {
      MemberKeyed(product, "performance_evidence", Obj(es));
    }
  }

  lemma RulesKeyed(product: Items, rs: seq<Json>)
    requires WellKeyed(Obj(product)) && HasRules(product, rs)
    ensures forall rule :: rule in rs ==> WellKeyed(rule)
  {
    if rs != [] {
      var ps :| ("promotion_policy", Obj(ps)) in product && PolicyRules(ps, rs);
      MemberKeyed(product, "promotion_policy", Obj(ps));
      MemberKeyed(ps, "rules", List(rs));
      forall rule | rule in rs ensures WellKeyed(rule) {
        var i :| 0 <= i < |rs| && rs[i] == rule;
      }
    }
  }

  lemma HeaderListed(product: Items, m: Measurement, h: Host, d: Items)
    requires WellKeyed(Obj(product)) && ("measurement_contract", Obj(d)) in product
    ensures Get(product, "measurement_contract") == Obj(d)
    ensures var vs := HeaderViolations(product, m, h);
            && (forall v :: v in vs ==> v.ContractIdMismatch? || v.ContractPathMismatch?)
            && (ContractIdMismatch in vs <==> !exists v :: Reads(d, "id", v) && h.same(v, m.id))
            && (ContractPathMismatch in vs <==>
                  ("path", Str("benchmarks/native_event/manifests/phase72_measurement_contract_v1.json")) !in d)
  {
    GetMeans(product, "measurement_contract");
    MemberKeyed(product, "measurement_contract", Obj(d));
    GetMeans(d, "id");
    GetMeans(d, "path");
    assert CONTRACT_PATH == "benchmarks/native_event/manifests/phase72_measurement_contract_v1.json";
    hide Get;
    hide Reads;
  }

  lemma ReportParts(product: Items, m: Measurement, h: Host, d: Items, es: Items, rs: seq<Json>, vs: seq<Violation>)
    returns (header: seq<Violation>, found: seq<Violation>, unbacked: seq<Violation>)
    requires WellKeyed(Obj(product)) && Report(product, m, h) == Checked(vs)
    requires ("measurement_contract", Obj(d)) in product && HasEvidence(product, es) && HasRules(product, rs)
    ensures header == HeaderViolations(product, m, h) && found == EvidenceViolations(es, m, h)
    ensures RuleViolations(rs, es, h) == Some(unbacked) && vs == header + found + unbacked
  {
    HeaderListed(product, m, h, d);
    EvidenceFieldExactly(product);
    RulesFieldExactly(product);
    hide WellKeyed;
    hide HasEvidence;
    hide HasRules;
    hide EvidenceField;
    hide RulesField;
    hide Iterate;
    hide HeaderViolations;
    hide EvidenceViolations;
    hide RuleViolations;
    hide Get;
    header, found := HeaderViolations(product, m, h), EvidenceViolations(es, m, h);
    unbacked := RuleViolations(rs, es, h).value;
  }

  lemma NotAnObjectReported(j: Json, m: Measurement, h: Host)
    requires j.Obj? ==> Distinct(j.fields)
    ensures NotAnObject in EvidenceProblems(j, m, h) <==> !j.Obj?
    ensures !j.Obj? ==> EvidenceProblems(j, m, h) == [NotAnObject]
  {
    if j.Obj? {
      MissingReported(j.fields, m, h);
    }
  }

  // ---------------------------------------------------------------- reports that stop early

  /** Without a declaration, or with evidence that is no object, the report says so and says nothing further. */
  lemma EarlyReports(product: Items, m: Measurement, h: Host)
    requires WellKeyed(Obj(product))
    ensures (forall d :: ("measurement_contract", Obj(d)) !in product) ==>
              Report(product, m, h) == Checked([NoDeclaration])
    ensures forall d, j ::
              ("measurement_contract", Obj(d)) in product && ("performance_evidence", j) in product && !j.Obj? ==>
                exists vs :: Report(product, m, h) == Checked(vs + [EvidenceNotAnObject])
                             && forall v :: v in vs ==> v.ContractIdMismatch? || v.ContractPathMismatch?
  {
    GetMeans(product, "measurement_contract");
    LookupMeans(product, "performance_evidence");
    forall d, j | ("measurement_contract", Obj(d)) in product && ("performance_evidence", j) in product && !j.Obj?
      ensures exists vs :: Report(product, m, h) == Checked(vs + [EvidenceNotAnObject])
                           && forall v :: v in vs ==> v.ContractIdMismatch? || v.ContractPathMismatch?
    {
      HeaderListed(product, m, h, d);
      var vs := HeaderViolations(product, m, h);
      hide HeaderViolations;
      assert Report(product, m, h) == Checked(vs + [EvidenceNotAnObject]);
    }
    hide Lookup;
  }

  /** A rule the gate can look at: an object whose evidence, when it is enabled and has any, is an object too. */
  ghost predicate Readable(rule: Json, es: Items, h: Host) {
    && rule.Obj?
    && (Enabled(rule.fields) ==>
          forall w, j :: Reads(rule.fields, "workload_id", w) && (h.text(w), j) in es ==> j.Obj?)
  }

  ghost predicate ReadableRules(product: Items, es: Items, h: Host) {
    exists rs :: HasRules(product, rs) && forall rule :: rule in rs ==> Readable(rule, es, h)
  }

  lemma ReadableExactly(rule: Json, es: Items, h: Host)
    requires WellKeyed(rule) && WellKeyed(Obj(es))
    ensures Malformed(rule, es, h) <==> !Readable(rule, es, h)
  {
    if rule.Obj? {
      GetMeans(rule.fields, "workload_id");
      EnabledExactly(rule.fields);
      LookupMeans(es, h.text(Get(rule.fields, "workload_id")));
      hide Get;
      hide Lookup;
      hide Truthy;
      hide Enabled;
      hide Absent;
      hide WellKeyed;
    }
  }

  /** The gate raises exactly when declaration and evidence are objects but the rules are no list of readable rules. */
  lemma ReportRaisesExactly(product: Items, m: Measurement, h: Host)
    requires WellKeyed(Obj(product))
    ensures Report(product, m, h).Raised? <==>
            && (exists d :: ("measurement_contract", Obj(d)) in product)
            && (exists es :: HasEvidence(product, es) && !ReadableRules(product, es, h))
  {
    GetMeans(product, "measurement_contract");
    EvidenceFieldExactly(product);
    hide WellKeyed;
    hide HasEvidence;
    hide HasRules;
    hide EvidenceField;
    hide RulesField;
    hide Iterate;
    hide HeaderViolations;
    hide EvidenceViolations;
    hide RuleViolations;
    hide Get;
    hide Reads;
    if Get(product, "measurement_contract").Obj? && EvidenceField(product).Obj? {
      RulesRaiseExactly(product, EvidenceField(product).fields, h);
      hide ReadableRules;
    }
  }

  lemma RulesRaiseExactly(product: Items, es: Items, h: Host)
    requires WellKeyed(Obj(product)) && WellKeyed(Obj(es))
    ensures RulesField(product).None? || Iterate(RulesField(product).value).None?
            || RuleViolations(Iterate(RulesField(product).value).value, es, h).None?
            <==> !ReadableRules(product, es, h)
  {
    RulesFieldExactly(product);
    hide WellKeyed;
    hide HasRules;
    hide RulesField;
    hide Iterate;
    hide Readable;
    if RulesField(product).Some? && Iterate(RulesField(product).value).Some? {
      var rs := Iterate(RulesField(product).value).value;
      RaisedExactly(rs, es, h);
      if HasRules(product, rs) && forall rule :: rule in rs ==> WellKeyed(rule) {
        forall i | 0 <= i < |rs| ensures Malformed(rs[i], es, h) <==> !Readable(rs[i], es, h) {
          ReadableExactly(rs[i], es, h);
        }
      } else {
        var rule :| rule in rs && !rule.Obj?;
        var i :| 0 <= i < |rs| && rs[i] == rule;
        assert Malformed(rs[i], es, h) && !Readable(rule, es, h);
      }
    }
  }
}
