/**
 Endpoint selection of resync/api/gateway.py (lines 283-286 and 516-559).

 `is_healthy` is always true there, so all endpoints of a service are
 available. The random draw of the weighted strategy is an input.
 */
module LoadBalancer {

  datatype Endpoint = Endpoint(url: string, weight: int)

  datatype Strategy = RoundRobin | LeastConnections | WeightedRoundRobin | IpHash | Random

  // --------------------------------------------------------- round robin

  /** `(index + 1) % n` */
  function NextIndex(index: nat, n: nat): nat
    requires index < n
  {
    (index + 1) % n
  }

  /** The indices chosen by `m` consecutive selections. */
  function Picks(index: nat, n: nat, m: nat): (picks: seq<nat>)
    requires index < n
    ensures |picks| == m && forall i :: 0 <= i < m ==> picks[i] < n
    decreases m
  {
    if m == 0 then [] else [index] + Picks(NextIndex(index, n), n, m - 1)
  }

  function Times(picks: seq<nat>, e: nat): nat {
    if picks == [] then 0 else (if picks[0] == e then 1 else 0) + Times(picks[1..], e)
  }

  /** How many selections after `index` the turn of `e` comes. */
  function Distance(index: nat, e: nat, n: nat): nat
    requires index < n && e < n
  {
    if e >= index then e - index else e - index + n
  }

  lemma {:induction false} LessTimes(a: int, b: int, n: nat)
    ensures a < b ==> a * n + n <= b * n
    decreases b - a
  {
    if a + 1 < b {
      LessTimes(a, b - 1, n);
      assert b * n == (b - 1) * n + n;
    } else if a + 1 == b {
      assert b * n == a * n + n;
    }
  }

  lemma DivModUnique(m: nat, n: nat, q: nat, r: nat)
    requires n > 0 && r < n && m == q * n + r
    ensures m / n == q && m % n == r
  {
    LessTimes(q, m / n, n);
    LessTimes(m / n, q, n);
  }

  lemma DivModStep(m: nat, n: nat)
    requires n > 0
    ensures (m + 1) / n == m / n + if m % n == n - 1 then 1 else 0
    ensures (m + 1) % n == if m % n == n - 1 then 0 else m % n + 1
  {
    var q, r := m / n, m % n;
    if r == n - 1 {
      assert (q + 1) * n == q * n + n;
      DivModUnique(m + 1, n, q + 1, 0);
    } else {
      DivModUnique(m + 1, n, q, r + 1);
    }
  }

  lemma NextIndexWraps(index: nat, n: nat)
    requires index < n
    ensures NextIndex(index, n) == if index + 1 == n then 0 else index + 1
  {
  }

  /** Exact counts: `m` selections give every endpoint m / n turns, and one more to those next in line. */
  lemma {:induction false} RoundRobinCounts(index: nat, n: nat, m: nat, e: nat)
    requires index < n && e < n
    ensures Times(Picks(index, n, m), e) == m / n + if Distance(index, e, n) < m % n then 1 else 0
    decreases m
  {
    if m > 0 {
      var picks := Picks(index, n, m);
      assert picks[1..] == Picks(NextIndex(index, n), n, m - 1);
      NextIndexWraps(index, n);
      RoundRobinCounts(NextIndex(index, n), n, m - 1, e);
      DivModStep(m - 1, n);
    }
  }

  /** Fairness: over any consecutive selections no endpoint is ahead of another by more than one. */
  lemma RoundRobinIsFair(index: nat, n: nat, m: nat, e: nat, f: nat)
    requires index < n && e < n && f < n
    ensures m / n <= Times(Picks(index, n, m), e) <= m / n + 1
    ensures m % n == 0 ==> Times(Picks(index, n, m), e) == m / n
    ensures Times(Picks(index, n, m), e) - Times(Picks(index, n, m), f) <= 1
  {
    RoundRobinCounts(index, n, m, e);
    RoundRobinCounts(index, n, m, f);
  }

  // ------------------------------------------------------ weighted selection

  function Sum(ws: seq<int>): int {
    if ws == [] then 0 else Sum(ws[..|ws| - 1]) + ws[|ws| - 1]
  }

  /** `cumulative_weights[i - 1]`, and 0 before the first. */
  function Cumulative(ws: seq<int>, i: nat): int
    requires i <= |ws|
  {
    Sum(ws[..i])
  }

  predicate NonNegative(ws: seq<int>) {
    forall i :: 0 <= i < |ws| ==> ws[i] >= 0
  }

  lemma {:induction false} SumsGrow(ws: seq<int>, i: nat, j: nat)
    requires NonNegative(ws) && i <= j <= |ws|
    ensures 0 <= Cumulative(ws, i) <= Cumulative(ws, j)
    decreases j
  {
    if j > 0 {
      assert ws[..j][..j - 1] == ws[..j - 1];
      if i == j {
        SumsGrow(ws, i - 1, j - 1);
      } else {
        SumsGrow(ws, i, j - 1);
      }
    }
  }

  /** `draw` falls into the stretch that belongs to index `i`. */
  predicate Owns(ws: seq<int>, draw: int, i: nat) {
    i < |ws| && Cumulative(ws, i) < draw <= Cumulative(ws, i + 1)
  }

  /** The first index whose cumulative weight is at least the draw. */
  predicate FirstReaching(ws: seq<int>, draw: int, i: nat) {
    && i < |ws| && draw <= Cumulative(ws, i + 1)
    && forall k :: 1 <= k <= i ==> draw > Cumulative(ws, k)
  }

  /** The loop stops at the one index whose stretch the draw falls into. */
  lemma FirstReachingIffOwns(ws: seq<int>, draw: int, i: nat)
    requires NonNegative(ws) && draw >= 1
    ensures FirstReaching(ws, draw, i) <==> Owns(ws, draw, i)
  {
    if FirstReaching(ws, draw, i) && i > 0 {
      assert draw > Cumulative(ws, i);
    }
    if Owns(ws, draw, i) {
      forall k | 1 <= k <= i ensures draw > Cumulative(ws, k) {
        SumsGrow(ws, k, i);
      }
    }
  }

  /** Every draw in range has an owner, so the fallback is never reached. */
  lemma {:induction false} SomeoneOwns(ws: seq<int>, draw: int) returns (i: nat)
    requires NonNegative(ws) && 1 <= draw <= Sum(ws)
    ensures Owns(ws, draw, i)
    decreases |ws|
  {
    var front := ws[..|ws| - 1];
    assert ws[..|ws|] == ws;
    if draw <= Sum(front) {
      i := SomeoneOwns(front, draw);
      assert front[..i] == ws[..i] && front[..i + 1] == ws[..i + 1];
    } else {
      i := |ws| - 1;
    }
  }

  /** The draws above `low` and up to `high`. */
  function Interval(low: int, high: int): (r: set<int>)
    ensures forall x :: x in r <==> low < x <= high
    decreases high - low
  {
    if low >= high then {} else Interval(low, high - 1) + {high}
  }

  lemma {:induction false} IntervalSize(low: int, high: int)
    requires low <= high
    ensures |Interval(low, high)| == high - low
    decreases high - low
  {
    if low < high {
      IntervalSize(low, high - 1);
      assert high !in Interval(low, high - 1) && Interval(low, high) == Interval(low, high - 1) + {high};
    }
  }

  /** Exact proportionality: of the draws 1..total precisely `ws[i]` select index `i`. */
  lemma WeightedIsProportional(ws: seq<int>, i: nat)
    requires NonNegative(ws) && i < |ws|
    ensures |set draw | 0 < draw <= Sum(ws) && FirstReaching(ws, draw, i)| == ws[i]
  {
    var chosen := set draw | 0 < draw <= Sum(ws) && FirstReaching(ws, draw, i);
    assert ws[..|ws|] == ws && ws[..i + 1][..i] == ws[..i];
    SumsGrow(ws, 0, i);
    SumsGrow(ws, i, i + 1);
    SumsGrow(ws, i + 1, |ws|);
    forall draw: int ensures draw in chosen <==> draw in Interval(Cumulative(ws, i), Cumulative(ws, i + 1)) {
      if draw >= 1 {
        FirstReachingIffOwns(ws, draw, i);
      }
    }
    assert chosen == Interval(Cumulative(ws, i), Cumulative(ws, i + 1));
    IntervalSize(Cumulative(ws, i), Cumulative(ws, i + 1));
  }

  // -------------------------------------------------------------- in place

  function Weights(eps: seq<Endpoint>): seq<int> {
    seq(|eps|, i requires 0 <= i < |eps| => eps[i].weight)
  }

  function Connections(active: map<string, int>, url: string): int {
    if url in active then active[url] else 0
  }

  /** No endpoint has fewer connections, and those listed before have more. */
  ghost predicate IsFirstLeastLoaded(eps: seq<Endpoint>, active: map<string, int>, best: nat) {
    && best < |eps|
    && (forall i :: 0 <= i < |eps| ==> Connections(active, eps[best].url) <= Connections(active, eps[i].url))
    && (forall i :: 0 <= i < best ==> Connections(active, eps[best].url) < Connections(active, eps[i].url))
  }

  datatype Selection = NoEndpoint | Selected(index: nat) | RandomRangeError

  function EndpointsOf(services: map<string, seq<Endpoint>>, service: string): seq<Endpoint> {
    if service in services then services[service] else []
  }

  function IndexOf(indices: map<string, nat>, service: string): nat {
    if service in indices then indices[service] else 0
  }

  /** The stored index of a service with endpoints is in range; one without has never been selected from. */
  ghost predicate InRange(services: map<string, seq<Endpoint>>, indices: map<string, nat>) {
    forall s :: IndexOf(indices, s) == 0 || IndexOf(indices, s) < |EndpointsOf(services, s)|
  }

  class Balancer {
    var services: map<string, seq<Endpoint>>
    var serviceIndex: map<string, nat>
    var activeConnections: map<string, int>

    function Endpoints(service: string): seq<Endpoint>
      reads this
    {
      EndpointsOf(services, service)
    }

    function Index(service: string): nat
      reads this
    {
      IndexOf(serviceIndex, service)
    }

    ghost predicate Valid()
      reads this
    {
      InRange(services, serviceIndex)
    }

    constructor ()
      ensures Valid() && services == map[] && serviceIndex == map[] && activeConnections == map[]
    {
      services, serviceIndex, activeConnections := map[], map[], map[];
    }

    /** The list of a service only grows, so the index stays in range. */
    method AddService(service: string, endpoint: Endpoint)
      requires Valid()
      modifies this
      ensures Valid()
      ensures services == old(services)[service := old(Endpoints(service)) + [endpoint]]
      ensures serviceIndex == old(serviceIndex) && activeConnections == old(activeConnections)
    {
      services := services[service := Endpoints(service) + [endpoint]];
    }

    /** `draw` is what `random.randint(1, total)` returns, used by one strategy only. */
    method SelectServiceEndpoint(service: string, strategy: Strategy, draw: int) returns (r: Selection)
      requires Valid()
      requires strategy == WeightedRoundRobin && Sum(Weights(Endpoints(service))) >= 1 ==>
        1 <= draw <= Sum(Weights(Endpoints(service)))
      modifies this`serviceIndex
      ensures Valid()
      ensures r == NoEndpoint <==> Endpoints(service) == []
      ensures r.Selected? ==> r.index < |Endpoints(service)|
      ensures r == RandomRangeError <==> strategy == WeightedRoundRobin && Sum(Weights(Endpoints(service))) < 0
      ensures strategy == RoundRobin && r.Selected? ==>
        && r.index == old(Index(service))
        && serviceIndex == old(serviceIndex)[service := NextIndex(r.index, |Endpoints(service)|)]
      ensures strategy != RoundRobin || r == NoEndpoint ==> serviceIndex == old(serviceIndex)
      ensures strategy == LeastConnections && r.Selected? ==>
        IsFirstLeastLoaded(Endpoints(service), activeConnections, r.index)
      ensures strategy == WeightedRoundRobin && Endpoints(service) != [] ==>
        var ws := Weights(Endpoints(service));
        if Sum(ws) == 0 then r == Selected(0)
        else if Sum(ws) < 0 then r == RandomRangeError
        else r.Selected? && FirstReaching(ws, draw, r.index)
      ensures strategy in {IpHash, Random} && Endpoints(service) != [] ==> r == Selected(0)
    {
      var eps := Endpoints(service);
      if eps == [] {
        return NoEndpoint;
      }
      match strategy
      case RoundRobin =>
        var index := Index(service);
        NextIndexWraps(index, |eps|);
        serviceIndex := serviceIndex[service := NextIndex(index, |eps|)];
        r := Selected(index);
      case LeastConnections =>
        var best := LeastLoaded(eps);
        r := Selected(best);
      case WeightedRoundRobin =>
        var ws := Weights(eps);
        if Sum(ws) == 0 {
          return Selected(0);
        }
        if Sum(ws) < 0 {
          return RandomRangeError;
        }
        r := PickWeighted(ws, draw);
      case IpHash => r := Selected(0);
      case Random => r := Selected(0);
    }

    /** `min(endpoints, key=...)`: the first of the least loaded. */
    method LeastLoaded(eps: seq<Endpoint>) returns (best: nat)
      requires eps != []
      ensures IsFirstLeastLoaded(eps, activeConnections, best)
    {
      best := 0;
      for j := 1 to |eps|
        invariant best < j
        invariant forall i :: 0 <= i < j ==>
          Connections(activeConnections, eps[best].url) <= Connections(activeConnections, eps[i].url)
        invariant forall i :: 0 <= i < best ==>
          Connections(activeConnections, eps[best].url) < Connections(activeConnections, eps[i].url)
      {
        if Connections(activeConnections, eps[j].url) < Connections(activeConnections, eps[best].url) {
          best := j;
        }
      }
    }

    /** The loop over the cumulative weights, with the fallback after it. */
    static method PickWeighted(ws: seq<int>, draw: int) returns (r: Selection)
      requires ws != [] && draw <= Sum(ws)
      ensures r.Selected? && FirstReaching(ws, draw, r.index)
    {
      var cumulative := [];
      for i := 0 to |ws|
        invariant |cumulative| == i
        invariant forall k :: 0 <= k < i ==> cumulative[k] == Cumulative(ws, k + 1)
      {
        cumulative := cumulative + [Sum(ws[..i + 1])];
      }
      assert Cumulative(ws, |ws|) == Sum(ws) by {
        assert ws[..|ws|] == ws;
      }
      r := Selected(0);
      for i := 0 to |ws|
        invariant forall k :: 1 <= k <= i ==> draw > Cumulative(ws, k)
      {
        if draw <= cumulative[i] {
          return Selected(i);
        }
      }
      assert false;
    }
  }

  /** A service with endpoints of the given weights, the connections of the first being two. */
  method ThreeEndpoints(w0: int, w1: int, w2: int) returns (b: Balancer)
    ensures fresh(b) && b.Valid() && b.Index("api") == 0
    ensures b.Endpoints("api") == [Endpoint("a", w0), Endpoint("b", w1), Endpoint("c", w2)]
    ensures b.Endpoints("web") == [] && b.activeConnections == map["a" := 2]
  {
    b := new Balancer();
    b.AddService("api", Endpoint("a", w0));
    b.AddService("api", Endpoint("b", w1));
    b.AddService("api", Endpoint("c", w2));
    b.activeConnections := map["a" := 2];
  }

  /** One selection by turns: the endpoint at the index, which moves on. */
  method SelectNext(b: Balancer, service: string) returns (index: nat)
    requires b.Valid() && b.Endpoints(service) != []
    modifies b`serviceIndex
    ensures b.Valid() && index == old(b.Index(service)) < |b.Endpoints(service)|
    ensures b.Index(service) == NextIndex(index, |b.Endpoints(service)|)
  {
    var r := b.SelectServiceEndpoint(service, RoundRobin, 0);
    index := r.index;
  }

  /** Consecutive selections by turns, with nothing in between, are the picks that are counted above. */
  method SelectByTurns(b: Balancer, service: string, m: nat) returns (picks: seq<nat>)
    requires b.Valid() && b.Endpoints(service) != []
    modifies b`serviceIndex
    ensures b.Valid()
    ensures old(b.Index(service)) < |b.Endpoints(service)|
    ensures picks == Picks(old(b.Index(service)), |b.Endpoints(service)|, m)
    decreases m
  {
    if m == 0 {
      assert b.Index(service) < |b.Endpoints(service)|;
      return [];
    }
    var first := SelectNext(b, service);
    var rest := SelectByTurns(b, service, m - 1);
    picks := [first] + rest;
  }

  /** Turns come in order and begin again. */
  method FourTurns() returns (turns: seq<nat>)
    ensures turns == [0, 1, 2, 0]
  {
    var b := ThreeEndpoints(1, 1, 1);
    turns := SelectByTurns(b, "api", 4);
  }

  /** Of two endpoints without connections the first is taken. */
  method FirstIdle() returns (idle: Selection, unknown: Selection)
    ensures idle == Selected(1) && unknown == NoEndpoint
  {
    var b := ThreeEndpoints(1, 1, 1);
    var eps := b.Endpoints("api");
    assert eps[0].url == "a" && eps[1].url == "b" && eps[2].url == "c";
    idle := b.SelectServiceEndpoint("api", LeastConnections, 0);
    unknown := b.SelectServiceEndpoint("web", LeastConnections, 0);
  }

  /** With weights 2, 0 and 1 the draws 1 and 2 take the first endpoint, and 3 the last. */
  method WeightedDraw(draw: int) returns (r: Selection)
    requires 1 <= draw <= 3
    ensures r == Selected(if draw == 3 then 2 else 0)
  {
    var b := ThreeEndpoints(2, 0, 1);
    assert Weights(b.Endpoints("api")) == [2, 0, 1];
    CumulativeOfThree(2, 0, 1);
    r := b.SelectServiceEndpoint("api", WeightedRoundRobin, draw);
  }

  lemma CumulativeOfThree(a: int, b: int, c: int)
    ensures var ws := [a, b, c];
      && Cumulative(ws, 0) == 0 && Cumulative(ws, 1) == a && Cumulative(ws, 2) == a + b
      && Cumulative(ws, 3) == Sum(ws) == a + b + c
  {
    var ws := [a, b, c];
    assert ws[..0] == [] && ws[..1] == [a] && ws[..2] == [a, b] && ws[..3] == ws;
    assert [a][..0] == [] && [a, b][..1] == [a] && ws[..2] == [a, b];
  }
}
