/**
 What the alerting system of resync/core/alerting.py raises, in names and
 numbers: which objective rule answers for an indicator, when a threshold rule
 raises, and what a new system makes of any metrics.
 */
module AlertingRules {
  import opened Wrappers
  import opened Alerting

  // ------------------------------------------------------- objective rules

  /** Rule `j` is the first on the metric whose name begins with "slo_". */
  predicate IsFirstObjective(rules: seq<Rule>, metric: string, j: nat) {
    && j < |rules| && rules[j].metric == metric && "slo_" <= rules[j].name
    && forall i :: 0 <= i < j ==> !(rules[i].metric == metric && "slo_" <= rules[i].name)
  }

  /** The first objective rule on an indicator answers for it, and none does only if no rule is one. */
  lemma {:induction false} SloRuleIsFirst(rules: seq<Rule>, kpi: Kpi)
    ensures SloRule(rules, kpi).None? <==>
            forall j :: 0 <= j < |rules| ==> !(rules[j].metric == kpi.name && "slo_" <= rules[j].name)
    ensures forall j: nat :: IsFirstObjective(rules, kpi.name, j) ==> SloRule(rules, kpi) == Some(rules[j])
  {
    if rules != [] && !IsSloRuleFor(rules[0], kpi) {
      var rest := rules[1..];
      SloRuleIsFirst(rest, kpi);
      forall j: nat | IsFirstObjective(rules, kpi.name, j) ensures SloRule(rules, kpi) == Some(rules[j]) {
        assert j > 0 && rest[j - 1] == rules[j];
        assert IsFirstObjective(rest, kpi.name, j - 1);
      }
      if SloRule(rest, kpi).None? {
        forall j | 0 <= j < |rules| ensures !(rules[j].metric == kpi.name && "slo_" <= rules[j].name) {
          assert j > 0 ==> rest[j - 1] == rules[j];
        }
      }
      if forall j :: 0 <= j < |rules| ==> !(rules[j].metric == kpi.name && "slo_" <= rules[j].name) {
        forall j | 0 <= j < |rest| ensures !(rest[j].metric == kpi.name && "slo_" <= rest[j].name) {
          assert rest[j] == rules[j + 1];
        }
      }
    }
  }

  // ------------------------------------------------------- threshold rules

  /**
   When a threshold rule raises: an enabled rule that is the only one of its
   name and metric and is no objective rule has an active alert after an
   evaluation, if it had none before, exactly when its metric is there and
   compares with the threshold as the rule's condition says.
   */
  lemma ThresholdRuleRaisesIff(s: System, metrics: Metrics, t: int, rule: Rule)
    requires rule in s.rules && rule.enabled && !HasActive(s.board.active, rule) && !("slo_" <= rule.name)
    requires forall r :: r in s.rules && SameTarget(r, rule) ==> r == rule
    ensures HasActive(Apply(s, Evaluate(metrics, t)).board.active, rule) <==>
      && rule.metric in metrics
      && var v := metrics[rule.metric];
         || (v > rule.threshold && rule.condition in {Gt, Ge, Ne})
         || (v == rule.threshold && rule.condition in {Eq, Ge, Le})
         || (v < rule.threshold && rule.condition in {Lt, Le, Ne})
  {
    ActiveAfterEvaluationIff(s, metrics, t, rule);
    if k :| 0 <= k < |KPIS| && MissAnsweredBy(s.rules, KPIS[k], metrics, rule) {
      SloRuleIsOneOf(s.rules, KPIS[k]);
    }
  }

  // ------------------------------------------------ what is asked, in order

  /** Rules are asked in their order, each on its own. */
  lemma {:induction false} RulesInOrder(a: seq<Rule>, b: seq<Rule>, metrics: Metrics)
    ensures RuleRequests(a + b, metrics) == RuleRequests(a, metrics) + RuleRequests(b, metrics)
    ensures RuleRequests([], metrics) == []
    decreases |b|
  {
    if b == [] {
      assert a + b == a;
    } else {
      RulesInOrder(a, b[..|b| - 1], metrics);
      assert (a + b)[..|a + b| - 1] == a + b[..|b| - 1];
    }
  }

  lemma OneRule(rule: Rule, metrics: Metrics)
    ensures RuleRequests([rule], metrics) ==
            if Fires(rule, metrics) then [Request(rule, metrics[rule.metric])] else []
  {
    assert [rule][..0] == [];
  }

  /** Indicators are asked in their order, each on its own. */
  lemma {:induction false} IndicatorsInOrder(rules: seq<Rule>, a: seq<Kpi>, b: seq<Kpi>, metrics: Metrics)
    ensures SloRequests(rules, a + b, metrics) == SloRequests(rules, a, metrics) + SloRequests(rules, b, metrics)
    ensures SloRequests(rules, [], metrics) == []
    decreases |b|
  {
    if b == [] {
      assert a + b == a;
    } else {
      IndicatorsInOrder(rules, a, b[..|b| - 1], metrics);
      assert (a + b)[..|a + b| - 1] == a + b[..|b| - 1];
    }
  }

  lemma OneIndicator(rules: seq<Rule>, kpi: Kpi, j: nat, metrics: Metrics)
    requires IsFirstObjective(rules, kpi.name, j)
    ensures SloRequests(rules, [kpi], metrics) ==
      if kpi.name !in metrics then [Request(rules[j], 0.0)]
      else if (kpi.higherIsBetter && metrics[kpi.name] < kpi.target)
           || (!kpi.higherIsBetter && metrics[kpi.name] > kpi.target) then [Request(rules[j], metrics[kpi.name])]
      else []
  {
    assert [kpi][..0] == [];
    SloRuleIsFirst(rules, kpi);
  }

  /** Alerts of objectives come first: a later one answers for a missed indicator only if the earlier does. */
  lemma ObjectivesComeFirst(s: System, metrics: Metrics, t: int, i: nat, j: nat)
    returns (earlier: Rule, later: Rule)
    requires var after := Apply(s, Evaluate(metrics, t)).board.active; |s.board.active| <= i < j < |after|
    requires Inv(s.board)
    ensures var after := Apply(s, Evaluate(metrics, t)).board.active;
      Matches(after[i], earlier) && Matches(after[j], later)
    ensures AnswersForMiss(s.rules, metrics, later) ==> AnswersForMiss(s.rules, metrics, earlier)
  {
    var slo, rest := SloRequests(s.rules, KPIS, metrics), RuleRequests(s.rules, metrics);
    var c := RaiseAll(s.board, slo, t);
    var d := RaiseAll(c, rest, t);
    RaiseInTwoParts(s.board, slo, rest, t);
    RaisingAppends(s.board, slo, t);
    RaisingAppends(c, rest, t);
    RaiseAllKeepsInv(s.board, slo, t);
    RaiseAllKeepsInv(c, rest, t);
    earlier, later := RuleOf(d.active[i]), RuleOf(d.active[j]);
    if AnswersForMiss(s.rules, metrics, later) {
      var r := MissIsAsked(s.rules, metrics, later);
      EveryRequestIsMet(s.board, slo, t, r);
      HasActiveForTarget(c.active, r.rule, later);
      OnlyOneOfTarget(c.active, d.active, later, j);
      NewHereWasAsked(s.board, slo, t, i);
      var q :| q in slo && Matches(c.active[i], q.rule);
      AskedIsMissed(s.rules, metrics, q, earlier);
    }
  }

  /** A rule of the name and metric of an alert. */
  function RuleOf(a: Alert): Rule {
    Rule(a.rule, a.metric, Eq, 0.0, Info, true)
  }

  lemma MissIsAsked(rules: seq<Rule>, metrics: Metrics, rule: Rule) returns (r: Request)
    requires AnswersForMiss(rules, metrics, rule)
    ensures r in SloRequests(rules, KPIS, metrics) && SameTarget(r.rule, rule)
  {
    var k :| 0 <= k < |KPIS| && MissAnsweredBy(rules, KPIS[k], metrics, rule);
    var kpi := KPIS[k];
    r := Request(SloRule(rules, kpi).value, if kpi.name in metrics then metrics[kpi.name] else 0.0);
    assert AnswersFor(rules, kpi, r.rule, metrics, r.value);
    SloRequestsIff(rules, KPIS, metrics, r);
  }

  lemma AskedIsMissed(rules: seq<Rule>, metrics: Metrics, r: Request, rule: Rule)
    requires r in SloRequests(rules, KPIS, metrics) && SameTarget(r.rule, rule)
    ensures AnswersForMiss(rules, metrics, rule)
  {
    SloRequestsIff(rules, KPIS, metrics, r);
    var k :| 0 <= k < |KPIS| && AnswersFor(rules, KPIS[k], r.rule, metrics, r.value);
    assert MissAnsweredBy(rules, KPIS[k], metrics, rule);
  }

  /** In a list without two alerts of one target, an alert whose target is in the front part is itself there. */
  lemma OnlyOneOfTarget(front: seq<Alert>, all: seq<Alert>, rule: Rule, j: nat)
    requires front <= all && DistinctKeys(all) && j < |all| && Matches(all[j], rule) && HasActive(front, rule)
    ensures j < |front|
  {
    var a :| a in front && Matches(a, rule) && a.acknowledgedBy.None?;
    var i :| 0 <= i < |front| && front[i] == a;
    assert all[i] == front[i];
  }

  lemma NewHereWasAsked(b: Board, rs: seq<Request>, t: int, i: nat)
    requires Inv(b) && |b.active| <= i < |RaiseAll(b, rs, t).active|
    ensures exists r :: r in rs && Matches(RaiseAll(b, rs, t).active[i], r.rule)
  {
    var after := RaiseAll(b, rs, t).active;
    RaisingAppends(b, rs, t);
    RaiseAllKeepsInv(b, rs, t);
    forall k | 0 <= k < |b.active| ensures b.active[k] != after[i] {
      assert after[k] == b.active[k];
    }
    NewAlertsWereRequested(b, rs, t, after[i]);
  }

  // ------------------------------------------------------- the first rules

  lemma DefaultRulesAreNoObjectives()
    ensures forall j :: 0 <= j < 5 ==> !("slo_" <= INITIAL_RULES[j].name)
    ensures forall j :: 5 <= j < 10 ==> "slo_" <= INITIAL_RULES[j].name
  {
    assert "slo_"[1] == 'l';
    assert INITIAL_RULES[0].name[0] == 'a' && INITIAL_RULES[1].name[0] == 'e' && INITIAL_RULES[2].name[0] == 'a';
    assert INITIAL_RULES[3].name[0] == 'c' && INITIAL_RULES[4].name[0] == 't';
  }

  /** The lengths of their names tell the metrics apart, among the first five rules and among the others. */
  function MetricLength(j: nat): nat {
    match j
    case 0 => 17 case 1 => 14 case 2 => 12 case 3 => 15 case 4 => 27
    case 5 => 17 case 6 => 14 case 7 => 12 case 8 => 15 case _ => 27
  }

  lemma LengthsOfMetrics()
    ensures |INITIAL_RULES| == 10 && forall j: nat :: j < 10 ==> |INITIAL_RULES[j].metric| == MetricLength(j)
  {
  }

  lemma TargetsDiffer(i: nat, j: nat)
    requires i < 10 && j < 10 && SameTarget(INITIAL_RULES[i], INITIAL_RULES[j])
    ensures i == j
  {
    LengthsOfMetrics();
    DefaultRulesAreNoObjectives();
  }

  lemma FiresForItself(j: nat, m: Metrics)
    requires j < 10
    ensures FiresFor(INITIAL_RULES, m, INITIAL_RULES[j]) <==> Fires(INITIAL_RULES[j], m)
  {
    LengthsOfMetrics();
    if f :| f in INITIAL_RULES && SameTarget(f, INITIAL_RULES[j]) && Fires(f, m) {
      var i: nat :| i < |INITIAL_RULES| && INITIAL_RULES[i] == f;
      TargetsDiffer(i, j);
    }
    assert INITIAL_RULES[j] in INITIAL_RULES;
  }

  /** The indicator that objective rule `j` answers for. */
  function IndicatorOf(j: nat): Kpi
    requires 5 <= j < 10
  {
    match j
    case 5 => KPIS[0] case 6 => KPIS[1] case 7 => KPIS[2] case 8 => KPIS[5] case _ => KPIS[3]
  }

  lemma IndicatorHasMetric(j: nat)
    requires 5 <= j < 10
    ensures IndicatorOf(j).name == INITIAL_RULES[j].metric && IndicatorOf(j) in KPIS
  {
  }

  lemma ObjectiveIs(kpi: Kpi, j: nat)
    requires 5 <= j < 10 && INITIAL_RULES[j].metric == kpi.name
    ensures SloRule(INITIAL_RULES, kpi) == Some(INITIAL_RULES[j])
  {
    SloRuleIsFirst(INITIAL_RULES, kpi);
    FirstObjectiveAt(j);
  }

  lemma FirstObjectiveAt(j: nat)
    requires 5 <= j < 10
    ensures IsFirstObjective(INITIAL_RULES, INITIAL_RULES[j].metric, j)
  {
    LengthsOfMetrics();
    DefaultRulesAreNoObjectives();
  }

  lemma AnswersIff(j: nat, m: Metrics)
    requires j < 10
    ensures AnswersForMiss(INITIAL_RULES, m, INITIAL_RULES[j]) <==> j >= 5 && !Compliant(IndicatorOf(j), m)
  {
    var rule := INITIAL_RULES[j];
    DefaultRulesAreNoObjectives();
    if k :| 0 <= k < |KPIS| && MissAnsweredBy(INITIAL_RULES, KPIS[k], m, rule) {
      SloRuleIsOneOf(INITIAL_RULES, KPIS[k]);
      assert KPIS[k].name == rule.metric;
      IndicatorIs(k, j);
    }
    if j >= 5 && !Compliant(IndicatorOf(j), m) {
      IndicatorHasMetric(j);
      ObjectiveIs(IndicatorOf(j), j);
      var k :| 0 <= k < |KPIS| && KPIS[k] == IndicatorOf(j);
      assert MissAnsweredBy(INITIAL_RULES, KPIS[k], m, rule);
    }
  }

  lemma IndicatorIs(k: nat, j: nat)
    requires k < 6 && 5 <= j < 10 && KPIS[k].name == INITIAL_RULES[j].metric
    ensures KPIS[k] == IndicatorOf(j)
  {
    LengthsOfMetrics();
    LengthsOfIndicators();
  }

  lemma LengthsOfIndicators()
    ensures |KPIS| == 6 && |KPIS[0].name| == 17 && |KPIS[1].name| == 14 && |KPIS[2].name| == 12
    ensures |KPIS[3].name| == 27 && |KPIS[4].name| == 22 && |KPIS[5].name| == 15
  {
  }

  /** The alerts of a new system after its first evaluation. */
  function FirstAlerts(m: Metrics, t: int): seq<Alert> {
    Apply(System(INITIAL_RULES, EMPTY_BOARD), Evaluate(m, t)).board.active
  }

  predicate Alerts(alerts: seq<Alert>, name: string, metric: string) {
    exists a :: a in alerts && a.rule == name && a.metric == metric && a.acknowledgedBy.None?
  }

  lemma FirstAlertsIff(j: nat, m: Metrics, t: int)
    requires j < 10
    ensures Alerts(FirstAlerts(m, t), INITIAL_RULES[j].name, INITIAL_RULES[j].metric) <==>
            Fires(INITIAL_RULES[j], m) || (j >= 5 && !Compliant(IndicatorOf(j), m))
  {
    var s := System(INITIAL_RULES, EMPTY_BOARD);
    ActiveAfterEvaluationIff(s, m, t, INITIAL_RULES[j]);
    FiresForItself(j, m);
    AnswersIff(j, m);
    assert Alerts(FirstAlerts(m, t), INITIAL_RULES[j].name, INITIAL_RULES[j].metric) <==>
           HasActive(FirstAlerts(m, t), INITIAL_RULES[j]) by {
      assert forall a :: Matches(a, INITIAL_RULES[j]) <==>
        a.rule == INITIAL_RULES[j].name && a.metric == INITIAL_RULES[j].metric;
    }
  }

  predicate Above(m: Metrics, metric: string, bound: real) {
    metric in m && m[metric] > bound
  }

  predicate Below(m: Metrics, metric: string, bound: real) {
    metric in m && m[metric] < bound
  }

  /** A new system raises the alerts of its thresholds exactly when they are crossed. */
  lemma FirstThresholdAlerts(m: Metrics, t: int)
    ensures Alerts(FirstAlerts(m, t), "api_response_time_high", "api_response_time") <==>
            Above(m, "api_response_time", 800.0)
    ensures Alerts(FirstAlerts(m, t), "error_rate_high", "api_error_rate") <==> Above(m, "api_error_rate", 0.005)
    ensures Alerts(FirstAlerts(m, t), "availability_low", "availability") <==> Below(m, "availability", 0.990)
    ensures Alerts(FirstAlerts(m, t), "cache_hit_ratio_low", "cache_hit_ratio") <==> Below(m, "cache_hit_ratio", 0.70)
    ensures Alerts(FirstAlerts(m, t), "tws_connection_failure", "tws_connection_success_rate") <==>
            Below(m, "tws_connection_success_rate", 0.980)
  {
    FirstAlertsIff(0, m, t);
    FirstAlertsIff(1, m, t);
    FirstAlertsIff(2, m, t);
    FirstAlertsIff(3, m, t);
    FirstAlertsIff(4, m, t);
  }

  /** It raises the alerts of its objectives exactly when the indicator is missing or off its target. */
  lemma FirstObjectiveAlerts(m: Metrics, t: int)
    ensures Alerts(FirstAlerts(m, t), "slo_api_response_time", "api_response_time") <==>
            "api_response_time" !in m || m["api_response_time"] > 500.0
    ensures Alerts(FirstAlerts(m, t), "slo_api_error_rate", "api_error_rate") <==>
            "api_error_rate" !in m || m["api_error_rate"] > 0.001
    ensures Alerts(FirstAlerts(m, t), "slo_availability", "availability") <==>
            "availability" !in m || m["availability"] < 0.999
    ensures Alerts(FirstAlerts(m, t), "slo_cache_hit_ratio", "cache_hit_ratio") <==>
            "cache_hit_ratio" !in m || m["cache_hit_ratio"] < 0.85
    ensures Alerts(FirstAlerts(m, t), "slo_tws_connection_success_rate", "tws_connection_success_rate") <==>
            "tws_connection_success_rate" !in m || m["tws_connection_success_rate"] < 0.995
  {
    FirstAlertsIff(5, m, t);
    FirstAlertsIff(6, m, t);
    FirstAlertsIff(7, m, t);
    FirstAlertsIff(8, m, t);
    FirstAlertsIff(9, m, t);
  }

  /** It raises nothing else. */
  lemma FirstAlertsAreOfRules(m: Metrics, t: int, a: Alert) returns (j: nat)
    requires a in FirstAlerts(m, t)
    ensures j < 10 && a.rule == INITIAL_RULES[j].name && a.metric == INITIAL_RULES[j].metric
    ensures a.severity == INITIAL_RULES[j].severity && a.threshold == INITIAL_RULES[j].threshold
    ensures a.value == (if a.metric in m then m[a.metric] else 0.0) && a.timestamp == t
  {
    var s := System(INITIAL_RULES, EMPTY_BOARD);
    var rule := NewAlertsHaveReasons(s, m, t, a);
    if k :| 0 <= k < |KPIS| && AnswersFor(INITIAL_RULES, KPIS[k], rule, m, a.value) {
      SloRuleIsOneOf(INITIAL_RULES, KPIS[k]);
    }
    LengthsOfMetrics();
    j :| j < |INITIAL_RULES| && INITIAL_RULES[j] == rule;
  }

  lemma OnlySlowResponses(m: Metrics, t: int)
    requires m == map["api_response_time" := 600.0, "api_error_rate" := 0.001, "availability" := 0.999,
                      "cache_hit_ratio" := 0.85, "tws_connection_success_rate" := 0.995]
    ensures forall j: nat :: j < 10 ==>
      (Alerts(FirstAlerts(m, t), INITIAL_RULES[j].name, INITIAL_RULES[j].metric) <==> j == 5)
  {
    FirstThresholdAlerts(m, t);
    FirstObjectiveAlerts(m, t);
  }

  lemma OneAlert(m: Metrics, t: int, j: nat)
    requires j < 10 && forall i: nat :: i < 10 ==>
      (Alerts(FirstAlerts(m, t), INITIAL_RULES[i].name, INITIAL_RULES[i].metric) <==> i == j)
    ensures |FirstAlerts(m, t)| == 1
    ensures var a, rule := FirstAlerts(m, t)[0], INITIAL_RULES[j];
      && a.rule == rule.name && a.metric == rule.metric && a.severity == rule.severity
      && a.threshold == rule.threshold && a.timestamp == t && a.acknowledgedBy == None
      && a.value == if rule.metric in m then m[rule.metric] else 0.0
  {
    var alerts, b := FirstAlerts(m, t), RaiseAll(EMPTY_BOARD, Requests(INITIAL_RULES, m), t);
    assert Inv(EMPTY_BOARD);
    RaiseAllKeepsInv(EMPTY_BOARD, Requests(INITIAL_RULES, m), t);
    assert Inv(b) && b.active == alerts;
    forall k | 0 <= k < |alerts| ensures Matches(alerts[k], INITIAL_RULES[j]) {
      var i := FirstAlertsAreOfRules(m, t, alerts[k]);
      assert Alerts(alerts, INITIAL_RULES[i].name, INITIAL_RULES[i].metric);
    }
    assert Alerts(alerts, INITIAL_RULES[j].name, INITIAL_RULES[j].metric);
    assert |alerts| >= 1;
    assert |alerts| > 1 ==> Matches(alerts[0], INITIAL_RULES[j]) && Matches(alerts[1], INITIAL_RULES[j]);
    var i := FirstAlertsAreOfRules(m, t, alerts[0]);
    TargetsDiffer(i, j);
  }

  /** A response time of 600 with everything else on target: one alert, of the objective. */
  method SlowResponses(t: int) returns (alerts: seq<Alert>)
    ensures |alerts| == 1
    ensures var a := alerts[0];
      && a.rule == "slo_api_response_time" && a.metric == "api_response_time" && a.severity == Critical
      && a.value == 600.0 && a.threshold == 800.0 && a.timestamp == t && a.acknowledgedBy == None
  {
    var system := new AlertingSystem();
    var m := map["api_response_time" := 600.0, "api_error_rate" := 0.001, "availability" := 0.999,
                 "cache_hit_ratio" := 0.85, "tws_connection_success_rate" := 0.995];
    alerts := system.EvaluateRules(m, t);
    assert alerts == FirstAlerts(m, t);
    OnlySlowResponses(m, t);
    OneAlert(m, t, 5);
  }

  // ------------------------------------- acknowledging and removing, in order

  /** The first alert with the id leaves the active ones and ends the history, marked; all others keep their places. */
  lemma AcknowledgeMovesFirst(b: Board, k: nat, id: nat, user: string)
    requires k < |b.active| && b.active[k].id == id && forall i :: 0 <= i < k ==> b.active[i].id != id
    ensures var t := Acknowledge(b, id, user);
      && t.active == b.active[..k] + b.active[k + 1..] && t.created == b.created
      && t.history == b.history + [b.active[k].(acknowledgedBy := Some(user))]
  {
    IndexIsFirst(b.active, id);
  }

  lemma UnknownIdIsIgnored(b: Board, id: nat, user: string)
    requires forall i :: 0 <= i < |b.active| ==> b.active[i].id != id
    ensures Acknowledge(b, id, user) == b
  {
    IndexIsFirst(b.active, id);
  }

  /** Removal keeps the order of the rules, and each goes or stays on its own. */
  lemma {:induction false} RemovalInOrder(a: seq<Rule>, b: seq<Rule>, name: string)
    ensures WithoutRule(a + b, name) == WithoutRule(a, name) + WithoutRule(b, name)
    ensures WithoutRule([], name) == []
    decreases |b|
  {
    if b == [] {
      assert a + b == a;
    } else {
      RemovalInOrder(a, b[..|b| - 1], name);
      assert (a + b)[..|a + b| - 1] == a + b[..|b| - 1];
    }
  }

  lemma RemovalOfOne(rule: Rule, name: string)
    ensures WithoutRule([rule], name) == if rule.name == name then [] else [rule]
  {
    assert [rule][..0] == [];
  }
}
