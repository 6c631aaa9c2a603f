/** Verdicts, anomaly dictionaries, and the deterministic fallback rules
    (kelan/ai/ollama_client.py:23-49, kelan/ai/engine.py:83-100). */
module Trust {
  import opened Common

  datatype Verdict = ALLOW | DENY | MONITOR

  datatype TrustVerdict = TrustVerdict(verdict: Verdict, confidence: real, reason: string)

  /** A value of an anomaly dictionary; a nested one is a JSON list or object. */
  datatype Value = Num(n: real) | Flag(b: bool) | Text(s: string) | NullValue | Nested(json: string)

  type Anomalies = map<string, Value>

  /** The session's "anomalies" entry: missing, null, a dictionary, or some other JSON value. */
  datatype AnomalyField = Missing | Null | Dict(entries: Anomalies) | NonDict(json: string, truthy: bool)

  datatype Error = TypeError

  /** How Python compares the value with a number: booleans count as 0 and 1, anything else cannot be compared. */
  function Number(a: Anomalies, key: string): Result<real, Error> {
    if key !in a then Ok(0.0)
    else match a[key]
      case Num(n) => Ok(n)
      case Flag(b) => Ok(if b then 1.0 else 0.0)
      case Text(_) | NullValue | Nested(_) => Err(TypeError)
  }

  function FallbackDict(a: Anomalies): Result<TrustVerdict, Error> {
    var syn, ports := Number(a, "syn_rate_per_second"), Number(a, "ports_probed");
    var enrol, auth := Number(a, "enrollment_count_from_ip"), Number(a, "failed_auth_attempts");
    if syn.Err? || ports.Err? || enrol.Err? || auth.Err? then Err(TypeError)
    else Ok(
      if syn.value > 100.0 then TrustVerdict(DENY, 0.85, "fallback:syn_flood")
      else if ports.value > 500.0 then TrustVerdict(DENY, 0.85, "fallback:port_scan")
      else if enrol.value > 20.0 then TrustVerdict(DENY, 0.85, "fallback:sybil")
      else if auth.value > 50.0 then TrustVerdict(DENY, 0.85, "fallback:brute_force")
      else if a != map[] then TrustVerdict(MONITOR, 0.85, "fallback:anomalies_present")
      else TrustVerdict(ALLOW, 0.75, "fallback:clean_session"))
  }

  function Fallback(field: AnomalyField): Result<TrustVerdict, Error> {
    match field
    case Missing | Null => FallbackDict(map[])
    case Dict(entries) => FallbackDict(entries)
    case NonDict(_, truthy) =>
      if truthy then Ok(TrustVerdict(MONITOR, 0.5, "fallback:non_dict_anomalies")) else FallbackDict(map[])
  }

  /** The rules of the kelan-python engine (kelan-python/kelan/ai/engine.py:84-113): tests run
      one after the other, and one more denies floods of UDP. */
  function FallbackRules(a: Anomalies): Result<TrustVerdict, Error> {
    var syn, ports := Number(a, "syn_rate_per_second"), Number(a, "ports_probed");
    var enrol, auth := Number(a, "enrollment_count_from_ip"), Number(a, "failed_auth_attempts");
    var udp := Number(a, "udp_rate_per_second");
    if syn.Err? then Err(TypeError)
    else if syn.value > 100.0 then Ok(TrustVerdict(DENY, 0.95, "fallback:syn_flood_rate>100/s"))
    else if ports.Err? then Err(TypeError)
    else if ports.value > 500.0 then Ok(TrustVerdict(DENY, 0.90, "fallback:port_scan>500_ports"))
    else if enrol.Err? then Err(TypeError)
    else if enrol.value > 20.0 then Ok(TrustVerdict(DENY, 0.90, "fallback:sybil_burst>20_enrollments"))
    else if auth.Err? then Err(TypeError)
    else if auth.value > 50.0 then Ok(TrustVerdict(DENY, 0.85, "fallback:brute_force>50_attempts"))
    else if udp.Err? then Err(TypeError)
    else if udp.value > 500.0 then Ok(TrustVerdict(DENY, 0.90, "fallback:udp_flood_rate>500/s"))
    else if a != map[] then Ok(TrustVerdict(MONITOR, 0.60, "fallback:anomalies_present_ollama_unavailable"))
    else Ok(TrustVerdict(ALLOW, 0.75, "fallback:clean_session_ollama_unavailable"))
  }

  // ---- When the rules raise, and where the two sets differ ----

  /** The keys the rules look up and the limits they compare with, in order; the first four are common
      to both sets. */
  const RULES := [("syn_rate_per_second", 100.0), ("ports_probed", 500.0), ("enrollment_count_from_ip", 20.0),
                  ("failed_auth_attempts", 50.0), ("udp_rate_per_second", 500.0)]

  /** The rule's key holds something that is neither a number nor a boolean. */
  predicate Unreadable(a: Anomalies, rule: nat)
    requires rule < 5
  {
    RULES[rule].0 in a && !a[RULES[rule].0].Num? && !a[RULES[rule].0].Flag?
  }

  predicate Exceeds(a: Anomalies, rule: nat)
    requires rule < 5
  {
    RULES[rule].0 in a && a[RULES[rule].0].Num? && a[RULES[rule].0].n > RULES[rule].1
  }

  /** The first rule whose limit is exceeded. */
  predicate FirstExceeded(a: Anomalies, rule: nat)
    requires rule < 5
  {
    Exceeds(a, rule) && forall j: nat | j < rule :: !Exceeds(a, j)
  }

  /** Some rule among the first n meets an unreadable value. */
  predicate AnyUnreadable(a: Anomalies, n: nat)
    requires n <= 5
  {
    exists i: nat | i < n :: Unreadable(a, i)
  }

  /** Rules tried one after the other meet an unreadable value before one that denies. */
  predicate StumblesWithin(a: Anomalies, n: nat)
    requires n <= 5
  {
    exists i: nat | i < n :: Unreadable(a, i) && forall j: nat | j < i :: !Exceeds(a, j)
  }

  /** The fallback raises exactly on a dictionary that holds text, null, a list or an object under
      one of the four keys. */
  lemma FallbackRaisesIff(field: AnomalyField)
    ensures Fallback(field).Err? <==> field.Dict? && AnyUnreadable(field.entries, 4)
  {
    if field.Dict? {
      var a := field.entries;
      assert AnyUnreadable(a, 4) <==> Unreadable(a, 0) || Unreadable(a, 1) || Unreadable(a, 2) || Unreadable(a, 3);
    }
  }

  const REASONS := ["fallback:syn_flood", "fallback:port_scan", "fallback:sybil", "fallback:brute_force"]

  /** What the fallback decides when it does not raise: a session without anomalies is allowed,
      anomalies that are no dictionary are watched, and a dictionary is denied for the first limit
      it exceeds, watched when it exceeds none, and allowed when it is empty. */
  lemma FallbackMeaning(field: AnomalyField)
    ensures var clean, r := TrustVerdict(ALLOW, 0.75, "fallback:clean_session"), Fallback(field);
      && (field.Missing? || field.Null? || (field.NonDict? && !field.truthy) ==> r == Ok(clean))
      && (field.NonDict? && field.truthy ==> r == Ok(TrustVerdict(MONITOR, 0.5, "fallback:non_dict_anomalies")))
      && (field == Dict(map[]) ==> r == Ok(clean))
    ensures field.Dict? && !AnyUnreadable(field.entries, 4) ==>
      var a, r := field.entries, Fallback(field);
      && (forall i: nat | i < 4 && FirstExceeded(a, i) :: r == Ok(TrustVerdict(DENY, 0.85, REASONS[i])))
      && (a != map[] && (forall i: nat | i < 4 :: !Exceeds(a, i)) ==>
            r == Ok(TrustVerdict(MONITOR, 0.85, "fallback:anomalies_present")))
  {
    if field.Dict? {
      var a := field.entries;
      assert AnyUnreadable(a, 4) <==> Unreadable(a, 0) || Unreadable(a, 1) || Unreadable(a, 2) || Unreadable(a, 3);
      assert RULES[0] == ("syn_rate_per_second", 100.0) && RULES[1] == ("ports_probed", 500.0)
          && RULES[2] == ("enrollment_count_from_ip", 20.0) && RULES[3] == ("failed_auth_attempts", 50.0);
      assert forall i: nat | i < 4 && FirstExceeded(a, i) ::
        (i > 0 ==> !Exceeds(a, 0)) && (i > 1 ==> !Exceeds(a, 1)) && (i > 2 ==> !Exceeds(a, 2));
      if forall i: nat | i < 4 :: !Exceeds(a, i) {
        assert !Exceeds(a, 0) && !Exceeds(a, 1) && !Exceeds(a, 2) && !Exceeds(a, 3);
      }
    }
  }

  /** What a denial of the kelan-python rules carries, rule by rule. */
  const DENIALS := [(0.95, "fallback:syn_flood_rate>100/s"), (0.90, "fallback:port_scan>500_ports"),
                    (0.90, "fallback:sybil_burst>20_enrollments"), (0.85, "fallback:brute_force>50_attempts"),
                    (0.90, "fallback:udp_flood_rate>500/s")]

  /** The kelan-python rules deny for the first of five limits exceeded, even when a later key is
      unreadable; otherwise they watch whatever is not empty. */
  lemma FallbackRulesMeaning(a: Anomalies)
    requires !StumblesWithin(a, 5)
    ensures forall i: nat | i < 5 && FirstExceeded(a, i) ::
      FallbackRules(a) == Ok(TrustVerdict(DENY, DENIALS[i].0, DENIALS[i].1))
    ensures (forall i: nat | i < 5 :: !Exceeds(a, i)) ==>
      FallbackRules(a) == Ok(
        if a != map[] then TrustVerdict(MONITOR, 0.60, "fallback:anomalies_present_ollama_unavailable")
        else TrustVerdict(ALLOW, 0.75, "fallback:clean_session_ollama_unavailable"))
  {
    FallbackRulesRaisesIff(a);
    forall i: nat | i < 5 && FirstExceeded(a, i)
      ensures FallbackRules(a) == Ok(TrustVerdict(DENY, DENIALS[i].0, DENIALS[i].1))
    {
      assert (i > 0 ==> !Exceeds(a, 0)) && (i > 1 ==> !Exceeds(a, 1));
      assert (i > 2 ==> !Exceeds(a, 2)) && (i > 3 ==> !Exceeds(a, 3));
    }
    if forall i: nat | i < 5 :: !Exceeds(a, i) {
      assert !Exceeds(a, 0) && !Exceeds(a, 1) && !Exceeds(a, 2) && !Exceeds(a, 3) && !Exceeds(a, 4);
    }
  }

  /** The kelan-python rules raise exactly when such a value comes before the first limit exceeded. */
  lemma FallbackRulesRaisesIff(a: Anomalies)
    ensures FallbackRules(a).Err? <==> StumblesWithin(a, 5)
  {
    assert FallbackRules(a).Err? <==>
      || Unreadable(a, 0)
      || (Unreadable(a, 1) && !Exceeds(a, 0))
      || (Unreadable(a, 2) && !Exceeds(a, 0) && !Exceeds(a, 1))
      || (Unreadable(a, 3) && !Exceeds(a, 0) && !Exceeds(a, 1) && !Exceeds(a, 2))
      || (Unreadable(a, 4) && !Exceeds(a, 0) && !Exceeds(a, 1) && !Exceeds(a, 2) && !Exceeds(a, 3));
  }

  /** Both raise, or both answer with the same verdict. */
  predicate RuleSetsAgree(a: Anomalies) {
    var r, q := FallbackDict(a), FallbackRules(a);
    if r.Err? || q.Err? then r.Err? && q.Err? else r.value.verdict == q.value.verdict
  }

  /** Where the two rule sets part, on every dictionary. If a common key is unreadable, the first
      set raises and the second may deny instead, which happens when an earlier limit is exceeded;
      otherwise they part exactly when no common limit is exceeded and the rate of UDP is exceeded
      or unreadable. */
  lemma RuleSetsAgreeIff(a: Anomalies)
    ensures RuleSetsAgree(a) <==>
      if AnyUnreadable(a, 4) then StumblesWithin(a, 4)
      else (exists i: nat | i < 4 :: Exceeds(a, i)) || (!Exceeds(a, 4) && !Unreadable(a, 4))
    ensures FallbackDict(a).Err? && FallbackRules(a).Ok? ==> FallbackRules(a).value.verdict == DENY
    ensures FallbackDict(a).Ok? && FallbackDict(a).value.verdict == DENY ==>
      FallbackRules(a).Ok? && FallbackRules(a).value.verdict == DENY
  {
    FallbackRaisesIff(Dict(a));
    FallbackRulesRaisesIff(a);
    var syn, ports, enrol, auth := Exceeds(a, 0), Exceeds(a, 1), Exceeds(a, 2), Exceeds(a, 3);
    assert FallbackDict(a).Ok? ==> (FallbackDict(a).value.verdict == DENY <==> syn || ports || enrol || auth);
    assert FallbackRules(a).Ok? ==>
      (FallbackRules(a).value.verdict == DENY <==> syn || ports || enrol || auth || Exceeds(a, 4));
  }
}
