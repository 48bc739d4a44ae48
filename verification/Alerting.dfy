/**
 The alerting state machine of resync/core/alerting.py with the compliance
 test of resync/config/slo.py.

 Metric values are exact numbers. The source draws a random id for each alert;
 here ids count up, which is one way of being fresh.
 */
module Alerting {
  import opened Wrappers

  datatype Severity = Info | Warning | Critical | Emergency

  /** The two-letter codes of the source; any other text never holds. */
  datatype Condition = Gt | Lt | Eq | Ne | Ge | Le | Unknown(text: string)

  datatype Rule = Rule(
    name: string, metric: string, condition: Condition, threshold: real, severity: Severity, enabled: bool)

  datatype Alert = Alert(
    id: nat, rule: string, metric: string, severity: Severity, value: real, threshold: real, timestamp: int,
    acknowledgedBy: Option<string>)

  type Metrics = map<string, real>

  // ------------------------------------------------------ service objectives

  datatype Kpi = Kpi(name: string, target: real, critical: real, higherIsBetter: bool)

  const KPIS := [
    Kpi("api_response_time", 500.0, 800.0, false),
    Kpi("api_error_rate", 0.001, 0.005, false),
    Kpi("availability", 0.999, 0.990, true),
    Kpi("tws_connection_success_rate", 0.995, 0.980, true),
    Kpi("ai_agent_response_time", 1000.0, 2000.0, false),
    Kpi("cache_hit_ratio", 0.85, 0.70, true)
  ]

  /** A missing metric is not compliant. */
  predicate Compliant(kpi: Kpi, metrics: Metrics) {
    kpi.name in metrics &&
    if kpi.higherIsBetter then metrics[kpi.name] >= kpi.target else metrics[kpi.name] <= kpi.target
  }

  predicate CheckCondition(value: real, condition: Condition, threshold: real) {
    match condition
    case Gt => value > threshold
    case Lt => value < threshold
    case Eq => value == threshold
    case Ne => value != threshold
    case Ge => value >= threshold
    case Le => value <= threshold
    case Unknown(_) => false
  }

  predicate Fires(rule: Rule, metrics: Metrics) {
    rule.enabled && rule.metric in metrics && CheckCondition(metrics[rule.metric], rule.condition, rule.threshold)
  }

  // ------------------------------------------------------------ the requests

  /** A rule that asks for an alert, with the value to report. */
  datatype Request = Request(rule: Rule, value: real)

  predicate IsSloRuleFor(rule: Rule, kpi: Kpi) {
    rule.metric == kpi.name && "slo_" <= rule.name
  }

  /** The first objective rule for the indicator; whether it is enabled does not matter. */
  function SloRule(rules: seq<Rule>, kpi: Kpi): Option<Rule> {
    if rules == [] then None
    else if IsSloRuleFor(rules[0], kpi) then Some(rules[0])
    else SloRule(rules[1..], kpi)
  }

  function SloRequest(rules: seq<Rule>, kpi: Kpi, metrics: Metrics): seq<Request> {
    var rule := SloRule(rules, kpi);
    if Compliant(kpi, metrics) || rule.None? then []
    else [Request(rule.value, if kpi.name in metrics then metrics[kpi.name] else 0.0)]
  }

  function SloRequests(rules: seq<Rule>, kpis: seq<Kpi>, metrics: Metrics): seq<Request> {
    if kpis == [] then [] else
    SloRequests(rules, kpis[..|kpis| - 1], metrics) + SloRequest(rules, kpis[|kpis| - 1], metrics)
  }

  function RuleRequests(rules: seq<Rule>, metrics: Metrics): seq<Request> {
    if rules == [] then [] else
    var front, rule := RuleRequests(rules[..|rules| - 1], metrics), rules[|rules| - 1];
    if Fires(rule, metrics) then front + [Request(rule, metrics[rule.metric])] else front
  }

  /** Everything that one evaluation asks for, in order. */
  function Requests(rules: seq<Rule>, metrics: Metrics): seq<Request> {
    SloRequests(rules, KPIS, metrics) + RuleRequests(rules, metrics)
  }

  // ---------------------------------------------------------------- raising

  /** `created` alerts have been made so far; their ids are 0 to created - 1. */
  datatype Board = Board(active: seq<Alert>, history: seq<Alert>, created: nat)

  const EMPTY_BOARD := Board([], [], 0)

  predicate Matches(a: Alert, rule: Rule) {
    a.rule == rule.name && a.metric == rule.metric
  }

  predicate HasActive(active: seq<Alert>, rule: Rule) {
    exists a :: a in active && Matches(a, rule) && a.acknowledgedBy.None?
  }

  function NewAlert(b: Board, r: Request, timestamp: int): Alert {
    Alert(b.created, r.rule.name, r.rule.metric, r.rule.severity, r.value, r.rule.threshold, timestamp, None)
  }

  function Raise(b: Board, r: Request, timestamp: int): Board {
    if HasActive(b.active, r.rule) then b
    else Board(b.active + [NewAlert(b, r, timestamp)], b.history, b.created + 1)
  }

  function RaiseAll(b: Board, rs: seq<Request>, timestamp: int): Board {
    if rs == [] then b else Raise(RaiseAll(b, rs[..|rs| - 1], timestamp), rs[|rs| - 1], timestamp)
  }

  /** The first active alert with the id moves to the history, marked. */
  function Acknowledge(b: Board, id: nat, user: string): Board {
    var k := IndexOf(b.active, id);
    if k == |b.active| then b
    else Board(b.active[..k] + b.active[k + 1..], b.history + [b.active[k].(acknowledgedBy := Some(user))], b.created)
  }

  function IndexOf(alerts: seq<Alert>, id: nat): (k: nat)
    ensures k <= |alerts|
  {
    if alerts == [] || alerts[0].id == id then 0 else 1 + IndexOf(alerts[1..], id)
  }

  function WithoutRule(rules: seq<Rule>, name: string): seq<Rule> {
    if rules == [] then [] else
    var front := WithoutRule(rules[..|rules| - 1], name);
    if rules[|rules| - 1].name != name then front + [rules[|rules| - 1]] else front
  }

  // -------------------------------------------------------------- in place

  class AlertingSystem {
    var rules: seq<Rule>
    var activeAlerts: seq<Alert>
    var alertHistory: seq<Alert>
    var created: nat

    function Model(): Board
      reads this
    {
      Board(activeAlerts, alertHistory, created)
    }

    constructor ()
      ensures rules == INITIAL_RULES && Model() == EMPTY_BOARD
    {
      rules, activeAlerts, alertHistory, created := INITIAL_RULES, [], [], 0;
    }

    method EvaluateRules(metrics: Metrics, timestamp: int) returns (newAlerts: seq<Alert>)
      modifies this
      ensures rules == old(rules)
      ensures Model() == RaiseAll(old(Model()), Requests(rules, metrics), timestamp)
      ensures activeAlerts == old(activeAlerts) + newAlerts
    {
      ghost var b := Model();
      var first := EvaluateObjectives(KPIS, metrics, timestamp);
      var second := EvaluateThresholds(metrics, timestamp);
      RaiseInTwoParts(b, SloRequests(rules, KPIS, metrics), RuleRequests(rules, metrics), timestamp);
      AppendTwice(b.active, first, second);
      newAlerts := first + second;
    }

    /** The first loop: indicators that are not compliant. */
    method EvaluateObjectives(kpis: seq<Kpi>, metrics: Metrics, timestamp: int) returns (newAlerts: seq<Alert>)
      modifies this`activeAlerts, this`created
      ensures Model() == RaiseAll(old(Model()), SloRequests(rules, kpis, metrics), timestamp)
      ensures activeAlerts == old(activeAlerts) + newAlerts
    {
      ghost var b := Model();
      newAlerts := [];
      for i := 0 to |kpis|
        invariant Model() == RaiseAll(b, SloRequests(rules, kpis[..i], metrics), timestamp)
        invariant activeAlerts == b.active + newAlerts
      {
        NextObjective(b, rules, kpis, i, metrics, timestamp);
        var extra := EvaluateObjective(kpis[i], metrics, timestamp);
        AppendTwice(b.active, newAlerts, extra);
        newAlerts := newAlerts + extra;
      }
      assert kpis[..|kpis|] == kpis;
    }

    method EvaluateObjective(kpi: Kpi, metrics: Metrics, timestamp: int) returns (extra: seq<Alert>)
      modifies this`activeAlerts, this`created
      ensures Model() == RaiseAll(old(Model()), SloRequest(rules, kpi, metrics), timestamp)
      ensures activeAlerts == old(activeAlerts) + extra
    {
      extra := [];
      if !Compliant(kpi, metrics) {
        var rule := SloRule(rules, kpi);
        if rule.Some? {
          var value := if kpi.name in metrics then metrics[kpi.name] else 0.0;
          RaiseNext(Model(), [], Request(rule.value, value), timestamp);
          extra := CreateUnlessActive(Request(rule.value, value), timestamp);
        }
      }
    }

    /** The second loop: rules whose condition is met. */
    method EvaluateThresholds(metrics: Metrics, timestamp: int) returns (newAlerts: seq<Alert>)
      modifies this`activeAlerts, this`created
      ensures Model() == RaiseAll(old(Model()), RuleRequests(rules, metrics), timestamp)
      ensures activeAlerts == old(activeAlerts) + newAlerts
    {
      ghost var b := Model();
      newAlerts := [];
      for i := 0 to |rules|
        invariant Model() == RaiseAll(b, RuleRequests(rules[..i], metrics), timestamp)
        invariant activeAlerts == b.active + newAlerts
      {
        var rule := rules[i];
        assert rules[..i + 1][..i] == rules[..i];
        if !rule.enabled {
          continue;
        }
        if rule.metric in metrics && CheckCondition(metrics[rule.metric], rule.condition, rule.threshold) {
          var r := Request(rule, metrics[rule.metric]);
          RaiseNext(b, RuleRequests(rules[..i], metrics), r, timestamp);
          var extra := CreateUnlessActive(r, timestamp);
          AppendTwice(b.active, newAlerts, extra);
          newAlerts := newAlerts + extra;
        }
      }
      assert rules[..|rules|] == rules;
    }

    /** The body shared by both loops: find an active alert, or create one and report it. */
    method CreateUnlessActive(r: Request, timestamp: int) returns (extra: seq<Alert>)
      modifies this`activeAlerts, this`created
      ensures Model() == Raise(old(Model()), r, timestamp)
      ensures activeAlerts == old(activeAlerts) + extra
    {
      extra := [];
      var existing := FindActiveAlert(r.rule);
      if !existing {
        var alert := NewAlert(Model(), r, timestamp);
        created := created + 1;
        extra := [alert];
        activeAlerts := activeAlerts + [alert];
      }
    }

    method FindActiveAlert(rule: Rule) returns (found: bool)
      ensures found <==> HasActive(activeAlerts, rule)
    {
      for i := 0 to |activeAlerts|
        invariant !HasActive(activeAlerts[..i], rule)
      {
        var a := activeAlerts[i];
        assert activeAlerts[..i + 1] == activeAlerts[..i] + [a];
        if a.rule == rule.name && a.metric == rule.metric && a.acknowledgedBy.None? {
          return true;
        }
      }
      assert activeAlerts[..|activeAlerts|] == activeAlerts;
      return false;
    }

    method AcknowledgeAlert(id: nat, user: string) returns (found: bool)
      modifies this`activeAlerts, this`alertHistory
      ensures Model() == Acknowledge(old(Model()), id, user)
      ensures found <==> exists a :: a in old(activeAlerts) && a.id == id
    {
      var k := 0;
      IndexIsFirst(activeAlerts, id);
      while k < |activeAlerts|
        invariant k <= |activeAlerts| && forall j :: 0 <= j < k ==> activeAlerts[j].id != id
        invariant activeAlerts == old(activeAlerts) && alertHistory == old(alertHistory)
      {
        var alert := activeAlerts[k];
        if alert.id == id {
          activeAlerts := activeAlerts[..k] + activeAlerts[k + 1..];
          alertHistory := alertHistory + [alert.(acknowledgedBy := Some(user))];
          return true;
        }
        k := k + 1;
      }
      return false;
    }

    method AddRule(rule: Rule)
      modifies this`rules
      ensures rules == old(rules) + [rule]
    {
      rules := rules + [rule];
    }

    method RemoveRule(name: string)
      modifies this`rules
      ensures rules == WithoutRule(old(rules), name)
    {
      var kept := [];
      for i := 0 to |rules|
        invariant rules == old(rules) && kept == WithoutRule(rules[..i], name)
      {
        assert rules[..i + 1][..i] == rules[..i];
        if rules[i].name != name {
          kept := kept + [rules[i]];
        }
      }
      assert rules[..|rules|] == rules;
      rules := kept;
    }
  }

  lemma {:induction false} RaiseInTwoParts(b: Board, rs: seq<Request>, qs: seq<Request>, timestamp: int)
    ensures RaiseAll(b, rs + qs, timestamp) == RaiseAll(RaiseAll(b, rs, timestamp), qs, timestamp)
    decreases |qs|
  {
    if qs == [] {
      assert rs + qs == rs;
    } else {
      RaiseInTwoParts(b, rs, qs[..|qs| - 1], timestamp);
      assert (rs + qs)[..|rs + qs| - 1] == rs + qs[..|qs| - 1];
    }
  }

  lemma AppendTwice<T>(a: seq<T>, b: seq<T>, c: seq<T>)
    ensures a + b + c == a + (b + c)
  {
  }

  lemma NextObjective(b: Board, rules: seq<Rule>, kpis: seq<Kpi>, i: nat, metrics: Metrics, timestamp: int)
    requires i < |kpis|
    ensures RaiseAll(b, SloRequests(rules, kpis[..i + 1], metrics), timestamp) ==
            RaiseAll(RaiseAll(b, SloRequests(rules, kpis[..i], metrics), timestamp),
                     SloRequest(rules, kpis[i], metrics), timestamp)
  {
    assert kpis[..i + 1][..i] == kpis[..i];
    RaiseInTwoParts(b, SloRequests(rules, kpis[..i], metrics), SloRequest(rules, kpis[i], metrics), timestamp);
  }

  lemma RaiseNext(b: Board, rs: seq<Request>, r: Request, timestamp: int)
    ensures RaiseAll(b, rs + [r], timestamp) == Raise(RaiseAll(b, rs, timestamp), r, timestamp)
  {
    assert (rs + [r])[..|rs|] == rs;
  }

  lemma {:induction false} IndexIsFirst(alerts: seq<Alert>, id: nat)
    ensures var k := IndexOf(alerts, id);
      && (k < |alerts| ==> alerts[k].id == id)
      && (forall j :: 0 <= j < k ==> alerts[j].id != id)
  {
    if alerts != [] && alerts[0].id != id {
      IndexIsFirst(alerts[1..], id);
      forall j | 0 <= j < IndexOf(alerts, id) ensures alerts[j].id != id {
        assert j > 0 ==> alerts[j] == alerts[1..][j - 1];
      }
    }
  }

  // ---------------------------------------------------------- the first rules

  const DEFAULT_RULES := [
    Rule("api_response_time_high", "api_response_time", Gt, 800.0, Critical, true),
    Rule("error_rate_high", "api_error_rate", Gt, 0.005, Critical, true),
    Rule("availability_low", "availability", Lt, 0.990, Emergency, true),
    Rule("cache_hit_ratio_low", "cache_hit_ratio", Lt, 0.70, Warning, true),
    Rule("tws_connection_failure", "tws_connection_success_rate", Lt, 0.980, Critical, true)
  ]

  const SLO_RULES := [
    Rule("slo_api_response_time", "api_response_time", Gt, 800.0, Critical, true),
    Rule("slo_api_error_rate", "api_error_rate", Gt, 0.005, Critical, true),
    Rule("slo_availability", "availability", Lt, 0.990, Emergency, true),
    Rule("slo_cache_hit_ratio", "cache_hit_ratio", Lt, 0.70, Warning, true),
    Rule("slo_tws_connection_success_rate", "tws_connection_success_rate", Lt, 0.980, Critical, true)
  ]

  const INITIAL_RULES := DEFAULT_RULES + SLO_RULES

  // ----------------------------------------------------------- the runs

  /**
   Active alerts are unacknowledged and no two of them share rule and metric;
   everything in the history is acknowledged; and every alert ever created is
   in exactly one place of exactly one of the two.
   */
  ghost predicate Inv(b: Board) {
    && AllPending(b.active, b.created) && AllAcknowledged(b.history, b.created)
    && DistinctKeys(b.active)
    && Ids(b.active) + Ids(b.history) == AllBelow(b.created)
  }

  ghost predicate AllPending(alerts: seq<Alert>, created: nat) {
    forall i :: 0 <= i < |alerts| ==> alerts[i].acknowledgedBy.None? && alerts[i].id < created
  }

  ghost predicate AllAcknowledged(alerts: seq<Alert>, created: nat) {
    forall i :: 0 <= i < |alerts| ==> alerts[i].acknowledgedBy.Some? && alerts[i].id < created
  }

  ghost predicate DistinctKeys(alerts: seq<Alert>) {
    forall i, j :: 0 <= i < j < |alerts| ==> alerts[i].rule != alerts[j].rule || alerts[i].metric != alerts[j].metric
  }

  ghost function Ids(alerts: seq<Alert>): multiset<nat> {
    multiset(IdList(alerts))
  }

  function IdList(alerts: seq<Alert>): seq<nat> {
    seq(|alerts|, i requires 0 <= i < |alerts| => alerts[i].id)
  }

  /** Each of 0, ..., n - 1 once. */
  ghost function AllBelow(n: nat): multiset<nat> {
    if n == 0 then multiset{} else AllBelow(n - 1) + multiset{n - 1}
  }

  lemma AppendKeepsDistinct(alerts: seq<Alert>, a: Alert)
    requires DistinctKeys(alerts)
    requires forall i :: 0 <= i < |alerts| ==> alerts[i].rule != a.rule || alerts[i].metric != a.metric
    ensures DistinctKeys(alerts + [a])
  {
  }

  lemma IdsOfAppend(alerts: seq<Alert>, a: Alert)
    ensures Ids(alerts + [a]) == Ids(alerts) + multiset{a.id}
  {
    assert IdList(alerts + [a]) == IdList(alerts) + [a.id];
  }

  lemma RaiseKeepsInv(b: Board, r: Request, timestamp: int)
    requires Inv(b)
    ensures Inv(Raise(b, r, timestamp))
  {
    if !HasActive(b.active, r.rule) {
      var a := NewAlert(b, r, timestamp);
      NoneMatches(b.active, r.rule, b.created);
      AppendKeepsDistinct(b.active, a);
      AppendKeepsPending(b.active, a, b.created);
      AppendCountsId(b.active, a, b.history, b.created);
    }
  }

  lemma NoneMatches(alerts: seq<Alert>, rule: Rule, created: nat)
    requires !HasActive(alerts, rule) && AllPending(alerts, created)
    ensures forall i :: 0 <= i < |alerts| ==> alerts[i].rule != rule.name || alerts[i].metric != rule.metric
  {
    forall i | 0 <= i < |alerts| ensures !Matches(alerts[i], rule) {
      assert alerts[i] in alerts;
    }
  }

  lemma AppendCountsId(alerts: seq<Alert>, a: Alert, history: seq<Alert>, n: nat)
    requires Ids(alerts) + Ids(history) == AllBelow(n) && a.id == n
    ensures Ids(alerts + [a]) + Ids(history) == AllBelow(n + 1)
  {
    IdsOfAppend(alerts, a);
  }

  lemma AppendKeepsPending(alerts: seq<Alert>, a: Alert, created: nat)
    requires AllPending(alerts, created) && a.acknowledgedBy.None? && a.id == created
    ensures AllPending(alerts + [a], created + 1)
  {
  }

  lemma RemovalKeepsPending(alerts: seq<Alert>, k: nat, created: nat)
    requires AllPending(alerts, created) && k < |alerts|
    ensures AllPending(alerts[..k] + alerts[k + 1..], created)
  {
  }

  /** Moving one alert from the active ones to the history keeps all ids. */
  lemma MovingKeepsIds(alerts: seq<Alert>, k: nat, history: seq<Alert>, marked: Alert)
    requires k < |alerts| && alerts[k].id == marked.id
    ensures Ids(alerts[..k] + alerts[k + 1..]) + Ids(history + [marked]) == Ids(alerts) + Ids(history)
  {
    var ids := IdList(alerts);
    IdsOfAppend(history, marked);
    assert IdList(alerts[..k] + alerts[k + 1..]) == ids[..k] + ids[k + 1..];
    assert ids == ids[..k] + [ids[k]] + ids[k + 1..];
  }

  lemma RemovalKeepsDistinct(alerts: seq<Alert>, k: nat)
    requires DistinctKeys(alerts) && k < |alerts|
    ensures DistinctKeys(alerts[..k] + alerts[k + 1..])
  {
  }

  /** Acknowledging loses no alert and duplicates none. */
  lemma AcknowledgeKeepsInv(b: Board, id: nat, user: string)
    requires Inv(b)
    ensures Inv(Acknowledge(b, id, user))
  {
    var k := IndexOf(b.active, id);
    if k < |b.active| {
      MovingKeepsIds(b.active, k, b.history, b.active[k].(acknowledgedBy := Some(user)));
      RemovalKeepsDistinct(b.active, k);
      RemovalKeepsPending(b.active, k, b.created);
    }
  }

  datatype Op =
    | Evaluate(metrics: Metrics, timestamp: int)
    | Ack(id: nat, user: string)
    | Add(rule: Rule)
    | Remove(name: string)

  datatype System = System(rules: seq<Rule>, board: Board)

  function Apply(s: System, op: Op): System {
    match op
    case Evaluate(metrics, t) => s.(board := RaiseAll(s.board, Requests(s.rules, metrics), t))
    case Ack(id, user) => s.(board := Acknowledge(s.board, id, user))
    case Add(rule) => s.(rules := s.rules + [rule])
    case Remove(name) => s.(rules := WithoutRule(s.rules, name))
  }

  function After(rules: seq<Rule>, ops: seq<Op>): System {
    if ops == [] then System(rules, EMPTY_BOARD) else Apply(After(rules, ops[..|ops| - 1]), ops[|ops| - 1])
  }

  lemma {:induction false} RaiseAllKeepsInv(b: Board, rs: seq<Request>, timestamp: int)
    requires Inv(b)
    ensures Inv(RaiseAll(b, rs, timestamp))
  {
    if rs != [] {
      RaiseAllKeepsInv(b, rs[..|rs| - 1], timestamp);
      RaiseKeepsInv(RaiseAll(b, rs[..|rs| - 1], timestamp), rs[|rs| - 1], timestamp);
    }
  }

  /** Alert conservation over every run of evaluations, acknowledgements and rule changes. */
  lemma {:induction false} ReachableInv(rules: seq<Rule>, ops: seq<Op>)
    ensures Inv(After(rules, ops).board)
  {
    if ops != [] {
      var s := After(rules, ops[..|ops| - 1]);
      ReachableInv(rules, ops[..|ops| - 1]);
      match ops[|ops| - 1]
      case Evaluate(metrics, t) => RaiseAllKeepsInv(s.board, Requests(s.rules, metrics), t);
      case Ack(id, user) => AcknowledgeKeepsInv(s.board, id, user);
      case _ =>
    }
  }

  // ------------------------------------------------- what evaluation achieves

  /** Raising only adds at the end. */
  lemma {:induction false} RaisingAppends(b: Board, rs: seq<Request>, timestamp: int)
    ensures b.active <= RaiseAll(b, rs, timestamp).active
    ensures RaiseAll(b, rs, timestamp).history == b.history
  {
    if rs != [] {
      RaisingAppends(b, rs[..|rs| - 1], timestamp);
    }
  }

  lemma HasActiveGrows(active: seq<Alert>, more: seq<Alert>, rule: Rule)
    requires active <= more && HasActive(active, rule)
    ensures HasActive(more, rule)
  {
    var a :| a in active && Matches(a, rule) && a.acknowledgedBy.None?;
    assert a in more;
  }

  /** Afterwards every request is met by an active alert. */
  lemma {:induction false} EveryRequestIsMet(b: Board, rs: seq<Request>, timestamp: int, r: Request)
    requires r in rs
    ensures HasActive(RaiseAll(b, rs, timestamp).active, r.rule)
  {
    var front, last := rs[..|rs| - 1], rs[|rs| - 1];
    var c := RaiseAll(b, front, timestamp);
    if r in front {
      EveryRequestIsMet(b, front, timestamp, r);
      HasActiveGrows(c.active, Raise(c, last, timestamp).active, r.rule);
    } else {
      assert r == last;
      assert !HasActive(c.active, r.rule) ==> NewAlert(c, r, timestamp) in Raise(c, last, timestamp).active;
    }
  }

  /** If every request is met already, nothing happens. */
  lemma {:induction false} MetRequestsRaiseNothing(b: Board, rs: seq<Request>, timestamp: int)
    requires forall r :: r in rs ==> HasActive(b.active, r.rule)
    ensures RaiseAll(b, rs, timestamp) == b
  {
    if rs != [] {
      MetRequestsRaiseNothing(b, rs[..|rs| - 1], timestamp);
      assert rs[|rs| - 1] in rs;
    }
  }

  /** The alert says what the request asked for. */
  predicate Reports(a: Alert, r: Request, timestamp: int) {
    && Matches(a, r.rule) && a.severity == r.rule.severity && a.threshold == r.rule.threshold
    && a.value == r.value && a.timestamp == timestamp
  }

  /** Every new alert was asked for, and was not active before. */
  lemma {:induction false} NewAlertsWereRequested(b: Board, rs: seq<Request>, timestamp: int, a: Alert)
    requires a in RaiseAll(b, rs, timestamp).active && a !in b.active
    ensures exists r :: r in rs && Reports(a, r, timestamp) && !HasActive(b.active, r.rule)
  {
    if rs != [] {
      var front, last := rs[..|rs| - 1], rs[|rs| - 1];
      if a in RaiseAll(b, front, timestamp).active {
        NewAlertsWereRequested(b, front, timestamp, a);
      } else {
        assert last in rs && Reports(a, last, timestamp);
        RaisingAppends(b, front, timestamp);
        if HasActive(b.active, last.rule) {
          HasActiveGrows(b.active, RaiseAll(b, front, timestamp).active, last.rule);
        }
      }
    }
  }

  /** The two rules answer for the same alerts: an alert is looked up by name and metric alone. */
  predicate SameTarget(a: Rule, b: Rule) {
    a.name == b.name && a.metric == b.metric
  }

  lemma HasActiveForTarget(active: seq<Alert>, a: Rule, b: Rule)
    requires SameTarget(a, b)
    ensures HasActive(active, a) == HasActive(active, b)
  {
    assert forall x :: Matches(x, a) == Matches(x, b);
  }

  ghost predicate Asked(rs: seq<Request>, rule: Rule) {
    exists r :: r in rs && SameTarget(r.rule, rule)
  }

  /** Exactly when a rule has an active alert afterwards: it had one, or some request is for its name and metric. */
  lemma {:induction false} ActiveAfterIff(b: Board, rs: seq<Request>, timestamp: int, rule: Rule)
    ensures HasActive(RaiseAll(b, rs, timestamp).active, rule) <==> HasActive(b.active, rule) || Asked(rs, rule)
  {
    var after := RaiseAll(b, rs, timestamp);
    RaisingAppends(b, rs, timestamp);
    if HasActive(b.active, rule) {
      HasActiveGrows(b.active, after.active, rule);
    } else if r :| r in rs && SameTarget(r.rule, rule) {
      EveryRequestIsMet(b, rs, timestamp, r);
      HasActiveForTarget(after.active, r.rule, rule);
    } else if a :| a in after.active && Matches(a, rule) && a.acknowledgedBy.None? {
      NewAlertsWereRequested(b, rs, timestamp, a);
    }
  }

  /** Re-evaluating the same metrics with the same rules returns no new alert and changes nothing. */
  lemma ReevaluationIsIdle(s: System, metrics: Metrics, t: int, u: int)
    ensures Apply(Apply(s, Evaluate(metrics, t)), Evaluate(metrics, u)) == Apply(s, Evaluate(metrics, t))
  {
    var rs := Requests(s.rules, metrics);
    var b := RaiseAll(s.board, rs, t);
    forall r | r in rs ensures HasActive(b.active, r.rule) {
      EveryRequestIsMet(s.board, rs, t, r);
    }
    MetRequestsRaiseNothing(b, rs, u);
  }

  lemma {:induction false} RuleRequestsIff(rules: seq<Rule>, metrics: Metrics, r: Request)
    ensures r in RuleRequests(rules, metrics) <==>
            r.rule in rules && Fires(r.rule, metrics) && r.value == metrics[r.rule.metric]
  {
    if rules != [] {
      RuleRequestsIff(rules[..|rules| - 1], metrics, r);
      assert r.rule in rules <==> r.rule in rules[..|rules| - 1] || r.rule == rules[|rules| - 1];
    }
  }

  /** The rule that answers for an indicator, if it is the first objective rule for its metric. */
  predicate AnswersFor(rules: seq<Rule>, kpi: Kpi, rule: Rule, metrics: Metrics, value: real) {
    && !Compliant(kpi, metrics) && SloRule(rules, kpi) == Some(rule)
    && value == if kpi.name in metrics then metrics[kpi.name] else 0.0
  }

  lemma {:induction false} SloRequestsIff(rules: seq<Rule>, kpis: seq<Kpi>, metrics: Metrics, r: Request)
    ensures r in SloRequests(rules, kpis, metrics) <==>
            exists k :: 0 <= k < |kpis| && AnswersFor(rules, kpis[k], r.rule, metrics, r.value)
  {
    if kpis != [] {
      var front, last := kpis[..|kpis| - 1], kpis[|kpis| - 1];
      SloRequestsIff(rules, front, metrics, r);
      assert r in SloRequest(rules, last, metrics) <==> AnswersFor(rules, last, r.rule, metrics, r.value);
      if k :| 0 <= k < |front| && AnswersFor(rules, front[k], r.rule, metrics, r.value) {
        assert kpis[k] == front[k];
      }
    }
  }

  /** Some enabled rule with this name and metric fires. */
  ghost predicate FiresFor(rules: seq<Rule>, metrics: Metrics, rule: Rule) {
    exists f :: f in rules && SameTarget(f, rule) && Fires(f, metrics)
  }

  /** Some indicator misses its objective, and the rule that answers for it has this name and metric. */
  ghost predicate AnswersForMiss(rules: seq<Rule>, metrics: Metrics, rule: Rule) {
    exists k :: 0 <= k < |KPIS| && MissAnsweredBy(rules, KPIS[k], metrics, rule)
  }

  predicate MissAnsweredBy(rules: seq<Rule>, kpi: Kpi, metrics: Metrics, rule: Rule) {
    !Compliant(kpi, metrics) && SloRule(rules, kpi).Some? && SameTarget(SloRule(rules, kpi).value, rule)
  }

  lemma AskedIff(rules: seq<Rule>, metrics: Metrics, rule: Rule)
    ensures Asked(Requests(rules, metrics), rule) <==>
            FiresFor(rules, metrics, rule) || AnswersForMiss(rules, metrics, rule)
  {
    var slo, thresholds := SloRequests(rules, KPIS, metrics), RuleRequests(rules, metrics);
    forall r | r in Requests(rules, metrics) && SameTarget(r.rule, rule)
      ensures FiresFor(rules, metrics, rule) || AnswersForMiss(rules, metrics, rule)
    {
      RuleRequestsIff(rules, metrics, r);
      SloRequestsIff(rules, KPIS, metrics, r);
      if k :| 0 <= k < |KPIS| && AnswersFor(rules, KPIS[k], r.rule, metrics, r.value) {
        assert MissAnsweredBy(rules, KPIS[k], metrics, rule);
      }
    }
    if f :| f in rules && SameTarget(f, rule) && Fires(f, metrics) {
      RuleRequestsIff(rules, metrics, Request(f, metrics[f.metric]));
      assert Request(f, metrics[f.metric]) in thresholds;
    }
    if k :| 0 <= k < |KPIS| && MissAnsweredBy(rules, KPIS[k], metrics, rule) {
      var kpi := KPIS[k];
      var r := Request(SloRule(rules, kpi).value, if kpi.name in metrics then metrics[kpi.name] else 0.0);
      assert AnswersFor(rules, kpi, r.rule, metrics, r.value);
      SloRequestsIff(rules, KPIS, metrics, r);
      assert r in slo;
    }
  }

  /**
   Exactly when a rule has an active alert after an evaluation: it had one
   before, or an enabled rule of its name and metric fires, or it answers by
   name and metric for an indicator that misses its objective.
   */
  lemma ActiveAfterEvaluationIff(s: System, metrics: Metrics, t: int, rule: Rule)
    ensures HasActive(Apply(s, Evaluate(metrics, t)).board.active, rule) <==>
      || HasActive(s.board.active, rule)
      || FiresFor(s.rules, metrics, rule)
      || AnswersForMiss(s.rules, metrics, rule)
  {
    ActiveAfterIff(s.board, Requests(s.rules, metrics), t, rule);
    AskedIff(s.rules, metrics, rule);
  }

  /**
   So a disabled rule is not silent. If it is the only one of its name and
   metric, an evaluation gives it an active alert exactly when it is the first
   objective rule for an indicator that misses its objective.
   */
  lemma DisabledRuleRaisesIff(s: System, metrics: Metrics, t: int, rule: Rule)
    requires rule in s.rules && !rule.enabled && !HasActive(s.board.active, rule)
    requires forall r :: r in s.rules && SameTarget(r, rule) ==> r == rule
    ensures HasActive(Apply(s, Evaluate(metrics, t)).board.active, rule) <==>
      exists k :: 0 <= k < |KPIS| && !Compliant(KPIS[k], metrics) && SloRule(s.rules, KPIS[k]) == Some(rule)
  {
    ActiveAfterEvaluationIff(s, metrics, t, rule);
    forall k | 0 <= k < |KPIS| && MissAnsweredBy(s.rules, KPIS[k], metrics, rule)
      ensures SloRule(s.rules, KPIS[k]) == Some(rule)
    {
      SloRuleIsOneOf(s.rules, KPIS[k]);
    }
    forall k | 0 <= k < |KPIS| && !Compliant(KPIS[k], metrics) && SloRule(s.rules, KPIS[k]) == Some(rule)
      ensures MissAnsweredBy(s.rules, KPIS[k], metrics, rule)
    {
    }
  }

  /** After an evaluation every enabled rule whose condition is met has an active alert. */
  lemma FiringRulesAreActive(s: System, metrics: Metrics, t: int, rule: Rule)
    requires rule in s.rules && Fires(rule, metrics)
    ensures HasActive(Apply(s, Evaluate(metrics, t)).board.active, rule)
  {
    var r := Request(rule, metrics[rule.metric]);
    RuleRequestsIff(s.rules, metrics, r);
    EveryRequestIsMet(s.board, Requests(s.rules, metrics), t, r);
  }

  /** A new alert has a reason: an enabled rule that fires, or an indicator that misses its objective. */
  lemma NewAlertsHaveReasons(s: System, metrics: Metrics, t: int, a: Alert) returns (rule: Rule)
    requires a in Apply(s, Evaluate(metrics, t)).board.active && a !in s.board.active
    ensures Reports(a, Request(rule, a.value), t) && !HasActive(s.board.active, rule)
    ensures (rule in s.rules && Fires(rule, metrics) && a.value == metrics[rule.metric])
         || exists k :: 0 <= k < |KPIS| && AnswersFor(s.rules, KPIS[k], rule, metrics, a.value)
  {
    var rs := Requests(s.rules, metrics);
    NewAlertsWereRequested(s.board, rs, t, a);
    var r :| r in rs && Reports(a, r, t) && !HasActive(s.board.active, r.rule);
    RuleRequestsIff(s.rules, metrics, r);
    SloRequestsIff(s.rules, KPIS, metrics, r);
    rule := r.rule;
    if r in SloRequests(s.rules, KPIS, metrics) {
      var k :| 0 <= k < |KPIS| && AnswersFor(s.rules, KPIS[k], r.rule, metrics, r.value);
      assert AnswersFor(s.rules, KPIS[k], rule, metrics, a.value);
    } else {
      assert r in RuleRequests(s.rules, metrics);
    }
  }

  lemma {:induction false} RemovedRuleIsGone(rules: seq<Rule>, name: string, r: Rule)
    ensures r in WithoutRule(rules, name) <==> r in rules && r.name != name
  {
    if rules != [] {
      RemovedRuleIsGone(rules[..|rules| - 1], name, r);
      assert r in rules <==> r in rules[..|rules| - 1] || r == rules[|rules| - 1];
    }
  }

  lemma {:induction false} SloRuleIsOneOf(rules: seq<Rule>, kpi: Kpi)
    ensures SloRule(rules, kpi).Some? ==>
      SloRule(rules, kpi).value in rules && IsSloRuleFor(SloRule(rules, kpi).value, kpi)
  {
    if rules != [] && !IsSloRuleFor(rules[0], kpi) {
      SloRuleIsOneOf(rules[1..], kpi);
    }
  }

  /** Once a rule is removed, an evaluation raises no alert under its name. */
  lemma RemovedRuleIsSilent(s: System, name: string, metrics: Metrics, t: int, a: Alert)
    requires a in Apply(Apply(s, Remove(name)), Evaluate(metrics, t)).board.active && a !in s.board.active
    ensures a.rule != name
  {
    var u := Apply(s, Remove(name));
    var rule := NewAlertsHaveReasons(u, metrics, t, a);
    if k :| 0 <= k < |KPIS| && AnswersFor(u.rules, KPIS[k], rule, metrics, a.value) {
      SloRuleIsOneOf(u.rules, KPIS[k]);
    }
    RemovedRuleIsGone(s.rules, name, rule);
  }

  /**
   The objective check ignores `enabled`: a disabled objective rule still
   raises an alert when its indicator is missing, and reports the value 0.
   */
  lemma DisabledObjectiveRuleStillRaises(t: int)
    ensures var rule := Rule("slo_availability", "availability", Lt, 0.990, Emergency, false);
      var s := Apply(System([rule], EMPTY_BOARD), Evaluate(map[], t));
      !Fires(rule, map[]) && HasActive(s.board.active, rule)
  {
    var rule := Rule("slo_availability", "availability", Lt, 0.990, Emergency, false);
    var r := Request(rule, 0.0);
    assert IsSloRuleFor(rule, KPIS[2]) && AnswersFor([rule], KPIS[2], rule, map[], 0.0);
    SloRequestsIff([rule], KPIS, map[], r);
    EveryRequestIsMet(EMPTY_BOARD, Requests([rule], map[]), t, r);
  }

  /** With the rules of a new system and metrics that meet every objective, nothing asks for an alert. */
  lemma CompliantMetricsAreQuiet(metrics: Metrics)
    requires forall kpi :: kpi in KPIS ==> Compliant(kpi, metrics)
    ensures Requests(INITIAL_RULES, metrics) == []
  {
    CompliantAsksNothing(INITIAL_RULES, KPIS, metrics);
    DefaultRulesAreQuiet(metrics);
    SloRulesAreQuiet(metrics);
    QuietRulesAskNothing(INITIAL_RULES, metrics);
  }

  lemma DefaultRulesAreQuiet(metrics: Metrics)
    requires forall kpi :: kpi in KPIS ==> Compliant(kpi, metrics)
    ensures forall i :: 0 <= i < |DEFAULT_RULES| ==> !Fires(DEFAULT_RULES[i], metrics)
  {
    assert KPIS[0] in KPIS && KPIS[1] in KPIS && KPIS[2] in KPIS && KPIS[3] in KPIS && KPIS[5] in KPIS;
  }

  lemma SloRulesAreQuiet(metrics: Metrics)
    requires forall kpi :: kpi in KPIS ==> Compliant(kpi, metrics)
    ensures forall i :: 0 <= i < |SLO_RULES| ==> !Fires(SLO_RULES[i], metrics)
  {
    assert KPIS[0] in KPIS && KPIS[1] in KPIS && KPIS[2] in KPIS && KPIS[3] in KPIS && KPIS[5] in KPIS;
  }

  lemma {:induction false} CompliantAsksNothing(rules: seq<Rule>, kpis: seq<Kpi>, metrics: Metrics)
    requires forall kpi :: kpi in kpis ==> Compliant(kpi, metrics)
    ensures SloRequests(rules, kpis, metrics) == []
  {
    if kpis != [] {
      CompliantAsksNothing(rules, kpis[..|kpis| - 1], metrics);
      assert kpis[|kpis| - 1] in kpis;
    }
  }

  lemma {:induction false} QuietRulesAskNothing(rules: seq<Rule>, metrics: Metrics)
    requires forall i :: 0 <= i < |rules| ==> !Fires(rules[i], metrics)
    ensures RuleRequests(rules, metrics) == []
  {
    if rules != [] {
      QuietRulesAskNothing(rules[..|rules| - 1], metrics);
    }
  }

  /** After an acknowledgement a rule that still fires raises one new alert at the next evaluation. */
  lemma AcknowledgedRuleRaisesAgain(s: System, rule: Rule, metrics: Metrics, k: nat, user: string, t: int)
    requires Inv(s.board) && rule in s.rules && Fires(rule, metrics)
    requires k < |s.board.active| && Matches(s.board.active[k], rule)
    ensures var acked := Apply(s, Ack(s.board.active[k].id, user));
      && s.board.active[k].id in Ids(acked.board.history)
      && !HasActive(acked.board.active, rule)
      && HasActive(Apply(acked, Evaluate(metrics, t)).board.active, rule)
  {
    var b := s.board;
    var id := b.active[k].id;
    var acked := Apply(s, Ack(id, user));
    IndexIsFirst(b.active, id);
    IdsAreDistinct(b, IndexOf(b.active, id), k);
    IdsOfAppend(b.history, b.active[k].(acknowledgedBy := Some(user)));
    OthersDoNotMatch(b.active, k, rule);
    FiringRulesAreActive(acked, metrics, t, rule);
  }

  lemma OthersDoNotMatch(alerts: seq<Alert>, k: nat, rule: Rule)
    requires DistinctKeys(alerts) && k < |alerts| && Matches(alerts[k], rule)
    ensures !HasActive(alerts[..k] + alerts[k + 1..], rule)
  {
    var rest := alerts[..k] + alerts[k + 1..];
    forall a | a in rest ensures !Matches(a, rule) {
      var i :| 0 <= i < |rest| && rest[i] == a;
      assert a == alerts[if i < k then i else i + 1];
    }
  }

  lemma {:induction false} IdAtMostOnce(n: nat, id: nat)
    ensures AllBelow(n)[id] <= 1 && (id >= n ==> AllBelow(n)[id] == 0)
  {
    if n > 0 {
      IdAtMostOnce(n - 1, id);
    }
  }

  lemma TwiceInIds(alerts: seq<Alert>, i: nat, j: nat)
    requires i < j < |alerts| && alerts[i].id == alerts[j].id
    ensures Ids(alerts)[alerts[i].id] >= 2
  {
    var ids := IdList(alerts);
    assert ids == ids[..j] + [ids[j]] + ids[j + 1..];
    assert ids[..j][i] == alerts[i].id;
  }

  /** No two active alerts share an id. */
  lemma IdsAreDistinct(b: Board, i: nat, j: nat)
    requires Inv(b) && i < |b.active| && j < |b.active| && b.active[i].id == b.active[j].id
    ensures i == j
  {
    IdAtMostOnce(b.created, b.active[i].id);
    if i < j {
      TwiceInIds(b.active, i, j);
    } else if j < i {
      TwiceInIds(b.active, j, i);
    }
  }
}
