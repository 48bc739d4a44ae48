/**
 The dependency injection container of resync/api_gateway/container.py
 (lines 44-120), for registrations that are classes or finished objects.

 Interfaces are names. A class is its constructor's parameters; building it
 appends to `objects`, so an object is identified by when it was built.
 */
module Container {
  import opened Wrappers
  import Paths = DependencyGraph

  type Interface = string

  /** A constructor parameter other than `self`. */
  datatype Param = Param(name: string, annotation: Option<Interface>, default: Option<string>)

  datatype Implementation = Class(name: string, params: seq<Param>) | Object(id: string)

  /** An implementation with the value of its `_singleton` attribute. */
  datatype Registration = Registration(impl: Implementation, singleton: bool)

  datatype Instance = Given(impl: Implementation) | Built(index: nat)

  datatype Arg = Dependency(instance: Instance) | DefaultValue(value: string)

  datatype KeywordArg = KeywordArg(name: string, arg: Arg)

  datatype BuiltObject = BuiltObject(owner: Interface, kwargs: seq<KeywordArg>)

  /**
   A `ValueError` means that no registration was found; a call without a
   required argument is a `TypeError`; a `RecursionError` ends constructors
   that nest too deep, as on a cycle. Only the first is ever caught.
   */
  datatype Outcome = Resolved | ValueError | TypeError | RecursionError

  datatype Resolution = Ok(instance: Instance) | Failed(error: Outcome)

  type Registrations = map<Interface, Registration>
  type Instances = map<Interface, Instance>

  predicate NeedsBuilding(reg: Registration) {
    reg.impl.Class? && !reg.singleton
  }

  // --------------------------------------------------- what resolution means

  /** The outcome of resolving `i` by the registrations alone, when constructors may nest `depth` deep. */
  function OutcomeWithin(regs: Registrations, i: Interface, depth: nat): Outcome
    decreases depth, 0, 0
  {
    if i !in regs then ValueError
    else if !NeedsBuilding(regs[i]) then Resolved
    else if depth == 0 then RecursionError
    else
      var ps := regs[i].impl.params;
      var o := LoopOutcome(regs, ps, depth - 1);
      if o == Resolved && LacksArgument(ps) then TypeError else o
  }

  /** The parameters are resolved in order; the first failure that no default catches ends the loop. */
  function LoopOutcome(regs: Registrations, ps: seq<Param>, depth: nat): Outcome
    decreases depth, 2, |ps|
  {
    if ps == [] then Resolved else
    var front := LoopOutcome(regs, ps[..|ps| - 1], depth);
    if front != Resolved then front else ParamOutcome(regs, ps[|ps| - 1], depth)
  }

  function ParamOutcome(regs: Registrations, p: Param, depth: nat): Outcome
    decreases depth, 1, 0
  {
    if p.annotation.None? then Resolved else
    var o := OutcomeWithin(regs, p.annotation.value, depth);
    if o == ValueError && p.default.Some? then Resolved else o
  }

  /** A parameter without annotation is never passed, so it needs a default. */
  predicate LacksArgument(ps: seq<Param>) {
    exists p :: p in ps && p.annotation.None? && p.default.None?
  }

  predicate Settles(regs: Registrations, i: Interface, depth: nat) {
    OutcomeWithin(regs, i, depth) != RecursionError
  }

  /** Once there is an outcome, more depth does not change it. */
  lemma {:induction false} DeeperAgrees(regs: Registrations, i: Interface, d: nat, e: nat)
    requires d <= e && Settles(regs, i, d)
    ensures OutcomeWithin(regs, i, e) == OutcomeWithin(regs, i, d)
    decreases d, 0, 0
  {
    if i in regs && NeedsBuilding(regs[i]) {
      LoopDeeperAgrees(regs, regs[i].impl.params, d - 1, e - 1);
    }
  }

  lemma {:induction false} LoopDeeperAgrees(regs: Registrations, ps: seq<Param>, d: nat, e: nat)
    requires d <= e && LoopOutcome(regs, ps, d) != RecursionError
    ensures LoopOutcome(regs, ps, e) == LoopOutcome(regs, ps, d)
    decreases d, 2, |ps|
  {
    if ps != [] {
      LoopDeeperAgrees(regs, ps[..|ps| - 1], d, e);
      var p := ps[|ps| - 1];
      if LoopOutcome(regs, ps[..|ps| - 1], d) == Resolved && p.annotation.Some? {
        DeeperAgrees(regs, p.annotation.value, d, e);
      }
    }
  }

  /** Resolution of `i` comes to an end, if constructors may nest deep enough. */
  ghost predicate Terminates(regs: Registrations, i: Interface) {
    exists d: nat :: Settles(regs, i, d)
  }

  /** The outcome, however deep constructors have to nest for it; a `RecursionError` if no depth is enough. */
  ghost function OutcomeOf(regs: Registrations, i: Interface): Outcome {
    if Terminates(regs, i) then
      var d: nat :| Settles(regs, i, d);
      OutcomeWithin(regs, i, d)
    else RecursionError
  }

  /** The outcome does not depend on the depth at which it is found. */
  lemma OutcomeIsDepthFree(regs: Registrations, i: Interface, d: nat)
    requires Settles(regs, i, d)
    ensures OutcomeOf(regs, i) == OutcomeWithin(regs, i, d)
  {
    var e: nat :| Settles(regs, i, e) && OutcomeOf(regs, i) == OutcomeWithin(regs, i, e);
    if d <= e {
      DeeperAgrees(regs, i, d, e);
    } else {
      DeeperAgrees(regs, i, e, d);
    }
  }

  /** At some depth the loop over `ps` has the outcome `o`. */
  ghost predicate LoopEnds(regs: Registrations, ps: seq<Param>, o: Outcome) {
    o != RecursionError && exists d: nat :: LoopOutcome(regs, ps, d) == o
  }

  /** What the outcome of its dependency means for a parameter. */
  ghost function ParamOutcomeOf(regs: Registrations, p: Param): Outcome {
    if p.annotation.None? then Resolved else
    var o := OutcomeOf(regs, p.annotation.value);
    if o == ValueError && p.default.Some? then Resolved else o
  }

  lemma ParamSettles(regs: Registrations, p: Param) returns (d: nat)
    requires ParamOutcomeOf(regs, p) != RecursionError
    ensures forall e :: e >= d ==> ParamOutcome(regs, p, e) == ParamOutcomeOf(regs, p)
  {
    d := 0;
    if p.annotation.Some? {
      d :| Settles(regs, p.annotation.value, d);
      forall e | e >= d ensures ParamOutcome(regs, p, e) == ParamOutcomeOf(regs, p) {
        DeeperAgrees(regs, p.annotation.value, d, e);
        OutcomeIsDepthFree(regs, p.annotation.value, d);
      }
    }
  }

  lemma ParamOutcomeIsDepthFree(regs: Registrations, p: Param, d: nat)
    requires ParamOutcome(regs, p, d) != RecursionError
    ensures ParamOutcomeOf(regs, p) == ParamOutcome(regs, p, d)
  {
    if p.annotation.Some? {
      OutcomeIsDepthFree(regs, p.annotation.value, d);
    }
  }

  /** After a resolved prefix the loop has the outcome of the next parameter. */
  lemma LoopGoesOn(regs: Registrations, ps: seq<Param>, k: nat)
    requires k < |ps| && LoopEnds(regs, ps[..k], Resolved) && ParamOutcomeOf(regs, ps[k]) != RecursionError
    ensures LoopEnds(regs, ps[..k + 1], ParamOutcomeOf(regs, ps[k]))
  {
    var d: nat :| LoopOutcome(regs, ps[..k], d) == Resolved;
    var e := ParamSettles(regs, ps[k]);
    var f := if d < e then e else d;
    LoopDeeperAgrees(regs, ps[..k], d, f);
    LoopStep(regs, ps, k, f);
    assert LoopOutcome(regs, ps[..k + 1], f) == ParamOutcomeOf(regs, ps[k]);
  }

  lemma LoopStep(regs: Registrations, ps: seq<Param>, k: nat, depth: nat)
    requires k < |ps|
    ensures LoopOutcome(regs, ps[..k + 1], depth) ==
            if LoopOutcome(regs, ps[..k], depth) == Resolved then ParamOutcome(regs, ps[k], depth)
            else LoopOutcome(regs, ps[..k], depth)
  {
    assert ps[..k + 1][..k] == ps[..k];
  }

  lemma NothingToLoop(regs: Registrations, ps: seq<Param>)
    ensures LoopEnds(regs, ps[..0], Resolved)
  {
    assert LoopOutcome(regs, ps[..0], 0) == Resolved;
  }

  /** A prefix that fails decides the loop. */
  lemma {:induction false} PrefixDecides(regs: Registrations, ps: seq<Param>, k: nat, depth: nat)
    requires k <= |ps| && LoopOutcome(regs, ps[..k], depth) != Resolved
    ensures LoopOutcome(regs, ps, depth) == LoopOutcome(regs, ps[..k], depth)
    decreases |ps| - k
  {
    if k == |ps| {
      assert ps[..k] == ps;
    } else {
      LoopStep(regs, ps, k, depth);
      PrefixDecides(regs, ps, k + 1, depth);
    }
  }

  lemma {:induction false} LoopResolvedIff(regs: Registrations, ps: seq<Param>)
    ensures LoopEnds(regs, ps, Resolved) <==> forall k :: 0 <= k < |ps| ==> ParamOutcomeOf(regs, ps[k]) == Resolved
    decreases |ps|
  {
    if ps == [] {
      assert LoopOutcome(regs, ps, 0) == Resolved;
    } else {
      var front, n := ps[..|ps| - 1], |ps| - 1;
      LoopResolvedIff(regs, front);
      assert ps[..n + 1] == ps;
      if LoopEnds(regs, ps, Resolved) {
        var d: nat :| LoopOutcome(regs, ps, d) == Resolved;
        assert LoopOutcome(regs, front, d) == Resolved;
        ParamOutcomeIsDepthFree(regs, ps[n], d);
      } else if LoopEnds(regs, front, Resolved) && ParamOutcomeOf(regs, ps[n]) == Resolved {
        LoopGoesOn(regs, ps, n);
      }
    }
  }

  /**
   Inductive resolvability, for any registrations: an interface resolves exactly
   when it is registered and either needs no building, or each annotated
   parameter resolves or falls back to its default, and each other parameter
   has a default.
   */
  lemma ResolvesIff(regs: Registrations, i: Interface)
    ensures OutcomeOf(regs, i) == Resolved <==>
      && i in regs
      && (NeedsBuilding(regs[i]) ==> forall k :: 0 <= k < |regs[i].impl.params| ==>
           var p := regs[i].impl.params[k];
           if p.annotation.None? then p.default.Some?
           else
             var o := OutcomeOf(regs, p.annotation.value);
             o == Resolved || (o == ValueError && p.default.Some?))
  {
    if i !in regs || !NeedsBuilding(regs[i]) {
      OutcomeIsDepthFree(regs, i, 0);
    } else {
      BuildingResolvesIff(regs, i);
      var ps := regs[i].impl.params;
      LoopResolvedIff(regs, ps);
      assert LacksArgument(ps) <==> exists k :: 0 <= k < |ps| && ps[k].annotation.None? && ps[k].default.None?;
    }
  }

  lemma BuildingResolvesIff(regs: Registrations, i: Interface)
    requires i in regs && NeedsBuilding(regs[i])
    ensures var ps := regs[i].impl.params;
      OutcomeOf(regs, i) == Resolved <==> LoopEnds(regs, ps, Resolved) && !LacksArgument(ps)
  {
    var ps := regs[i].impl.params;
    if OutcomeOf(regs, i) == Resolved {
      var d: nat :| Settles(regs, i, d) && OutcomeWithin(regs, i, d) == Resolved;
      assert LoopOutcome(regs, ps, d - 1) == Resolved;
    }
    if LoopEnds(regs, ps, Resolved) && !LacksArgument(ps) {
      var d: nat :| LoopOutcome(regs, ps, d) == Resolved;
      OutcomeIsDepthFree(regs, i, d + 1);
    }
  }

  lemma BuildingFails(regs: Registrations, i: Interface, o: Outcome)
    requires i in regs && NeedsBuilding(regs[i]) && o != Resolved
    requires LoopEnds(regs, regs[i].impl.params, o)
    ensures OutcomeOf(regs, i) == o
  {
    var d: nat :| LoopOutcome(regs, regs[i].impl.params, d) == o;
    OutcomeIsDepthFree(regs, i, d + 1);
  }

  lemma BuildingLacksArgument(regs: Registrations, i: Interface)
    requires i in regs && NeedsBuilding(regs[i])
    requires LoopEnds(regs, regs[i].impl.params, Resolved) && LacksArgument(regs[i].impl.params)
    ensures OutcomeOf(regs, i) == TypeError
  {
    var d: nat :| LoopOutcome(regs, regs[i].impl.params, d) == Resolved;
    OutcomeIsDepthFree(regs, i, d + 1);
  }

  /** The parameter fails: its dependency does, and if that is only missing there is no default. */
  ghost predicate FailsWith(regs: Registrations, p: Param, o: Outcome) {
    && p.annotation.Some? && OutcomeOf(regs, p.annotation.value) == o
    && o != Resolved && (o == ValueError ==> p.default.None?)
  }

  /** Parameter `k` is the first that fails, with the outcome `o`. */
  ghost predicate FirstFailure(regs: Registrations, ps: seq<Param>, k: nat, o: Outcome) {
    && k < |ps| && FailsWith(regs, ps[k], o)
    && forall m :: 0 <= m < k ==> ParamOutcomeOf(regs, ps[m]) == Resolved
  }

  lemma {:induction false} LoopFailsIff(regs: Registrations, ps: seq<Param>, o: Outcome)
    requires o !in {Resolved, RecursionError}
    ensures LoopEnds(regs, ps, o) <==> exists k: nat :: FirstFailure(regs, ps, k, o)
    decreases |ps|
  {
    if ps == [] {
      assert forall d: nat :: LoopOutcome(regs, ps, d) == Resolved;
    } else {
      var n := |ps| - 1;
      var front := ps[..n];
      LoopFailsIff(regs, front, o);
      LoopResolvedIff(regs, front);
      assert ps[..n + 1] == ps;
      if LoopEnds(regs, ps, o) {
        var d: nat :| LoopOutcome(regs, ps, d) == o;
        LoopStep(regs, ps, n, d);
        if LoopOutcome(regs, front, d) == Resolved {
          assert LoopEnds(regs, front, Resolved);
          ParamOutcomeIsDepthFree(regs, ps[n], d);
          assert FirstFailure(regs, ps, n, o);
        } else {
          assert LoopEnds(regs, front, o);
          var k: nat :| FirstFailure(regs, front, k, o);
          assert FirstFailure(regs, ps, k, o);
        }
      }
      if k: nat :| FirstFailure(regs, ps, k, o) {
        if k < n {
          assert FirstFailure(regs, front, k, o);
          var d: nat :| LoopOutcome(regs, front, d) == o;
          PrefixDecides(regs, ps, n, d);
        } else {
          LoopGoesOn(regs, ps, n);
        }
      }
    }
  }

  /**
   Which error, for any registrations: an interface that is not registered is a
   `ValueError`; a class fails as the first of its parameters that fails, or with
   a `TypeError` if all resolve but one that is not annotated has no default.
   */
  lemma FailureIsExact(regs: Registrations, i: Interface, o: Outcome)
    requires o !in {Resolved, RecursionError}
    ensures OutcomeOf(regs, i) == o <==>
      if i !in regs then o == ValueError
      else if !NeedsBuilding(regs[i]) then false
      else
        var ps := regs[i].impl.params;
        || (exists k: nat :: FirstFailure(regs, ps, k, o))
        || (o == TypeError && (forall k :: 0 <= k < |ps| ==> ParamOutcomeOf(regs, ps[k]) == Resolved)
            && exists p :: p in ps && p.annotation.None? && p.default.None?)
  {
    if i !in regs || !NeedsBuilding(regs[i]) {
      OutcomeIsDepthFree(regs, i, 0);
    } else {
      var ps := regs[i].impl.params;
      LoopFailsIff(regs, ps, o);
      LoopResolvedIff(regs, ps);
      if LoopEnds(regs, ps, o) {
        BuildingFails(regs, i, o);
      }
      if LoopEnds(regs, ps, Resolved) && LacksArgument(ps) {
        BuildingLacksArgument(regs, i);
      }
      if OutcomeOf(regs, i) == o {
        var d: nat :| Settles(regs, i, d) && OutcomeWithin(regs, i, d) == o;
        assert LoopOutcome(regs, ps, d - 1) == o || LoopOutcome(regs, ps, d - 1) == Resolved;
      }
    }
  }

  // ------------------------------------------------ on behalf of an interface

  /** Wherever `i` has an outcome, `j` has one with less depth: `j` is resolved on behalf of `i`. */
  ghost predicate Below(regs: Registrations, j: Interface, i: Interface) {
    forall d: nat :: Settles(regs, i, d) ==> d > 0 && Settles(regs, j, d - 1)
  }

  lemma BelowTransitive(regs: Registrations, k: Interface, j: Interface, i: Interface)
    requires Below(regs, k, j) && Below(regs, j, i)
    ensures Below(regs, k, i)
  {
    forall d: nat | Settles(regs, i, d) ensures d > 0 && Settles(regs, k, d - 1) {
      assert Settles(regs, j, d - 1);
      DeeperAgrees(regs, k, d - 2, d - 1);
    }
  }

  lemma {:induction false} NotBelowItself(regs: Registrations, i: Interface, d: nat)
    requires Settles(regs, i, d)
    ensures !Below(regs, i, i)
    decreases d
  {
    if d > 0 && Settles(regs, i, d - 1) {
      NotBelowItself(regs, i, d - 1);
    }
  }

  /** The parameter that follows a resolved prefix is resolved on behalf of its class. */
  lemma ParamIsBelow(regs: Registrations, i: Interface, k: nat)
    requires i in regs && NeedsBuilding(regs[i]) && k < |regs[i].impl.params|
    requires LoopEnds(regs, regs[i].impl.params[..k], Resolved) && regs[i].impl.params[k].annotation.Some?
    ensures Below(regs, regs[i].impl.params[k].annotation.value, i)
  {
    var ps := regs[i].impl.params;
    forall d: nat | Settles(regs, i, d) ensures d > 0 && Settles(regs, ps[k].annotation.value, d - 1) {
      PrefixAgrees(regs, ps, k, d - 1);
      LoopStep(regs, ps, k, d - 1);
      if LoopOutcome(regs, ps[..k + 1], d - 1) == RecursionError {
        PrefixDecides(regs, ps, k + 1, d - 1);
      }
    }
  }

  /** At any depth a prefix that resolves at some depth resolves or nests too deep. */
  lemma PrefixAgrees(regs: Registrations, ps: seq<Param>, k: nat, depth: nat)
    requires k <= |ps| && LoopEnds(regs, ps[..k], Resolved)
    ensures LoopOutcome(regs, ps[..k], depth) == Resolved || LoopOutcome(regs, ps, depth) == RecursionError
  {
    var d: nat :| LoopOutcome(regs, ps[..k], d) == Resolved;
    if LoopOutcome(regs, ps[..k], depth) == RecursionError {
      PrefixDecides(regs, ps, k, depth);
    } else if d <= depth {
      LoopDeeperAgrees(regs, ps[..k], d, depth);
    } else {
      LoopDeeperAgrees(regs, ps[..k], depth, d);
    }
  }

  // ------------------------------------------------------- how deep it goes

  /** What a constructor asks for. */
  ghost function AskedFor(ps: seq<Param>): set<Interface> {
    set k | 0 <= k < |ps| && ps[k].annotation.Some? :: ps[k].annotation.value
  }

  /** What the loop gets to, because all parameters before resolve or fall back to their default. */
  ghost function Evaluated(regs: Registrations, ps: seq<Param>): set<Interface> {
    set k | 0 <= k < |ps| && ps[k].annotation.Some? && LoopEnds(regs, ps[..k], Resolved) :: ps[k].annotation.value
  }

  /** From each class to the interfaces that its constructor asks for. */
  ghost function ConstructorGraph(regs: Registrations): Paths.Adjacency {
    map i | i in regs && NeedsBuilding(regs[i]) :: AskedFor(regs[i].impl.params)
  }

  /** From each class to the interfaces that are resolved for it. */
  ghost function EvaluationGraph(regs: Registrations): Paths.Adjacency {
    map i | i in regs && NeedsBuilding(regs[i]) :: Evaluated(regs, regs[i].impl.params)
  }

  /** Neither `i` nor anything that it reaches lies on a cycle. */
  ghost predicate ReachesNoCycle(m: Paths.Adjacency, i: Interface) {
    i !in Paths.Reach(m, i) && forall j :: j in Paths.Reach(m, i) ==> j !in Paths.Reach(m, j)
  }

  /** The graph has every edge along which resolution goes. */
  ghost predicate CoversEvaluation(regs: Registrations, m: Paths.Adjacency) {
    forall i :: i in regs && NeedsBuilding(regs[i]) ==> Evaluated(regs, regs[i].impl.params) <= Paths.Lookup(m, i)
  }

  lemma {:induction false} LoopSettles(regs: Registrations, ps: seq<Param>, k: nat, depth: nat)
    requires k <= |ps| && forall a :: a in Evaluated(regs, ps) ==> Settles(regs, a, depth)
    ensures LoopOutcome(regs, ps[..k], depth) != RecursionError
  {
    if k > 0 {
      LoopSettles(regs, ps, k - 1, depth);
      LoopStep(regs, ps, k - 1, depth);
      if LoopOutcome(regs, ps[..k - 1], depth) == Resolved && ps[k - 1].annotation.Some? {
        assert LoopEnds(regs, ps[..k - 1], Resolved);
        assert ps[k - 1].annotation.value in Evaluated(regs, ps);
      }
    }
  }

  /** Without a cycle in reach there is an outcome: a depth of one more than `i` reaches is enough. */
  lemma {:induction false} NoCycleSettles(regs: Registrations, m: Paths.Adjacency, i: Interface)
    requires CoversEvaluation(regs, m) && ReachesNoCycle(m, i)
    ensures Settles(regs, i, |Paths.Reach(m, i)| + 1)
    decreases |Paths.Reach(m, i)|
  {
    if i in regs && NeedsBuilding(regs[i]) {
      var n, ps := |Paths.Reach(m, i)|, regs[i].impl.params;
      Paths.ReachIsLeastClosedSet(m, i);
      forall a | a in Evaluated(regs, ps) ensures Settles(regs, a, n) {
        ReachShrinks(m, i, a);
        NoCycleSettles(regs, m, a);
        DeeperAgrees(regs, a, |Paths.Reach(m, a)| + 1, n);
      }
      LoopSettles(regs, ps, |ps|, n);
      assert ps[..|ps|] == ps;
    }
  }

  lemma ReachShrinks(m: Paths.Adjacency, i: Interface, a: Interface)
    requires a in Paths.Lookup(m, i) && a !in Paths.Reach(m, a)
    ensures a in Paths.Reach(m, i) && Paths.Reach(m, a) <= Paths.Reach(m, i)
    ensures |Paths.Reach(m, a)| < |Paths.Reach(m, i)|
  {
    Paths.ReachIsLeastClosedSet(m, i);
    Paths.ReachIsLeastClosedSet(m, a);
    assert Paths.Lookup(m, a) <= Paths.Reach(m, i);
    SmallerSet(Paths.Reach(m, a), Paths.Reach(m, i), a);
  }

  lemma SmallerSet(s: set<Interface>, t: set<Interface>, a: Interface)
    requires s <= t && a in t && a !in s
    ensures |s| < |t|
  {
    assert |t - s| == |t| - |s| && a in t - s;
  }

  /** What is resolved for an interface is resolved on behalf of it. */
  lemma EdgeIsBelow(regs: Registrations, i: Interface, a: Interface)
    requires a in Paths.Lookup(EvaluationGraph(regs), i)
    ensures Below(regs, a, i)
  {
    var ps := regs[i].impl.params;
    var k :| 0 <= k < |ps| && ps[k].annotation == Some(a) && LoopEnds(regs, ps[..k], Resolved);
    ParamIsBelow(regs, i, k);
  }

  lemma {:induction false} WalkIsBelow(regs: Registrations, i: Interface, p: seq<Interface>, j: Interface)
    requires Paths.Walk(EvaluationGraph(regs), i, p, j)
    ensures Below(regs, j, i)
    decreases |p|
  {
    var m, n := EvaluationGraph(regs), |p| - 1;
    assert p[n] in Paths.Lookup(m, p[n - 1]);
    EdgeIsBelow(regs, p[n - 1], j);
    if n > 1 {
      var front := p[..n];
      assert forall x, y :: 0 <= x && y == x + 1 && y < |front| ==> front[x] == p[x] && front[y] == p[y];
      assert Paths.Walk(m, i, front, p[n - 1]);
      WalkIsBelow(regs, i, front, p[n - 1]);
      BelowTransitive(regs, j, p[n - 1], i);
    }
  }

  /**
   Exactly when resolution terminates: following the dependencies that are
   resolved, from the interface on, leads to no cycle.
   */
  lemma TerminatesIffNoCycle(regs: Registrations, i: Interface)
    ensures Terminates(regs, i) <==> ReachesNoCycle(EvaluationGraph(regs), i)
  {
    var m := EvaluationGraph(regs);
    if ReachesNoCycle(m, i) {
      NoCycleSettles(regs, m, i);
    }
    if Terminates(regs, i) {
      var d: nat :| Settles(regs, i, d);
      OffCycle(regs, i, d);
      forall j | j in Paths.Reach(m, i) ensures j !in Paths.Reach(m, j) {
        var p :| Paths.Walk(m, i, p, j);
        WalkIsBelow(regs, i, p, j);
        OffCycle(regs, j, d - 1);
      }
    }
  }

  lemma OffCycle(regs: Registrations, i: Interface, d: nat)
    requires Settles(regs, i, d)
    ensures i !in Paths.Reach(EvaluationGraph(regs), i)
  {
    if i in Paths.Reach(EvaluationGraph(regs), i) {
      var p :| Paths.Walk(EvaluationGraph(regs), i, p, i);
      WalkIsBelow(regs, i, p, i);
      NotBelowItself(regs, i, d);
    }
  }

  /** So it terminates if no cycle of constructors is in reach at all, whatever cycles there are elsewhere. */
  lemma AcyclicTerminates(regs: Registrations, i: Interface)
    requires ReachesNoCycle(ConstructorGraph(regs), i)
    ensures Terminates(regs, i)
  {
    NoCycleSettles(regs, ConstructorGraph(regs), i);
  }

  /** A class that asks for itself never resolves, unless something that it needs before is missing. */
  lemma SelfReferenceNeverTerminates(name: string, p: string)
    ensures var regs := map["A" := Registration(Class(name, [Param(p, Some("A"), None)]), false)];
      !Terminates(regs, "A") && OutcomeOf(regs, "A") == RecursionError
    ensures var regs := map["A" := Registration(
        Class(name, [Param(p, Some("B"), None), Param(p, Some("A"), None)]), false)];
      Terminates(regs, "A") && OutcomeOf(regs, "A") == ValueError
  {
    var self := Param(p, Some("A"), None);
    var regs := map["A" := Registration(Class(name, [self]), false)];
    NothingToLoop(regs, [self]);
    assert "A" in Evaluated(regs, regs["A"].impl.params);
    assert Paths.Walk(EvaluationGraph(regs), "A", ["A", "A"], "A");
    Paths.ReachIff(EvaluationGraph(regs), "A", "A");
    TerminatesIffNoCycle(regs, "A");
    var ps := [Param(p, Some("B"), None), self];
    var other := map["A" := Registration(Class(name, ps), false)];
    LoopStep(other, ps, 0, 0);
    PrefixDecides(other, ps, 1, 0);
    OutcomeIsDepthFree(other, "A", 1);
  }

  // -------------------------------------------------------------- soundness

  /** The keyword arguments that a constructor must be passed: the cached instances, or the defaults. */
  ghost predicate RightArgs(regs: Registrations, ps: seq<Param>, instances: Instances, kwargs: seq<KeywordArg>)
    decreases |ps|
  {
    if ps == [] then kwargs == [] else
    var front, p := ps[..|ps| - 1], ps[|ps| - 1];
    if p.annotation.None? then RightArgs(regs, front, instances, kwargs)
    else
      && kwargs != []
      && RightArgs(regs, front, instances, kwargs[..|kwargs| - 1])
      && RightArg(regs, p, instances, kwargs[|kwargs| - 1])
  }

  ghost predicate RightArg(regs: Registrations, p: Param, instances: Instances, arg: KeywordArg)
    requires p.annotation.Some?
  {
    var a := p.annotation.value;
    && arg.name == p.name
    && if OutcomeOf(regs, a) == Resolved then a in instances && arg.arg == Dependency(instances[a])
       else p.default.Some? && arg.arg == DefaultValue(p.default.value)
  }

  ghost predicate Extends(s: Instances, t: Instances) {
    forall i :: i in s ==> i in t && t[i] == s[i]
  }

  /** What is newly cached was resolved on behalf of `i`. */
  ghost predicate OnlyBelow(regs: Registrations, i: Interface, s: Instances, t: Instances) {
    forall j :: j in t && j !in s ==> Below(regs, j, i)
  }

  /** What is newly cached is `i` itself or was resolved on behalf of it. */
  ghost predicate OnlyUpTo(regs: Registrations, i: Interface, s: Instances, t: Instances) {
    forall j :: j in t && j !in s ==> j == i || Below(regs, j, i)
  }

  lemma UpToParamIsBelow(regs: Registrations, i: Interface, a: Interface, s: Instances, t: Instances)
    requires Below(regs, a, i) && OnlyUpTo(regs, a, s, t)
    ensures OnlyBelow(regs, i, s, t)
  {
    forall j | j in t && j !in s ensures Below(regs, j, i) {
      if j != a {
        BelowTransitive(regs, j, a, i);
      }
    }
  }

  /** Instances that are added do not change what the arguments must be. */
  lemma {:induction false} RightArgsStable(regs: Registrations, ps: seq<Param>, s: Instances, t: Instances,
                                           kwargs: seq<KeywordArg>)
    requires RightArgs(regs, ps, s, kwargs) && Extends(s, t)
    ensures RightArgs(regs, ps, t, kwargs)
    decreases |ps|
  {
    if ps != [] {
      var passed := if ps[|ps| - 1].annotation.None? then kwargs else kwargs[..|kwargs| - 1];
      RightArgsStable(regs, ps[..|ps| - 1], s, t, passed);
    }
  }

  /** A cached instance is the registered object itself, or was built for this very interface. */
  ghost predicate RightInstance(regs: Registrations, objects: seq<BuiltObject>, i: Interface, inst: Instance) {
    && i in regs
    && match inst
       case Given(impl) => impl == regs[i].impl && !NeedsBuilding(regs[i])
       case Built(n) => NeedsBuilding(regs[i]) && n < |objects| && objects[n].owner == i
  }

  /** An object is the one instance of its interface and holds the instances cached for its dependencies. */
  ghost predicate RightObject(regs: Registrations, instances: Instances, n: nat, o: BuiltObject) {
    var i := o.owner;
    && i in regs && NeedsBuilding(regs[i])
    && i in instances && instances[i] == Built(n)
    && RightArgs(regs, regs[i].impl.params, instances, o.kwargs)
  }

  ghost predicate Sound(regs: Registrations, instances: Instances, objects: seq<BuiltObject>) {
    && (forall i :: i in instances ==>
         RightInstance(regs, objects, i, instances[i]) && OutcomeOf(regs, i) == Resolved)
    && (forall n :: 0 <= n < |objects| ==> RightObject(regs, instances, n, objects[n]))
  }

  /** A singleton is cached when it is registered, so no resolution gets to its implementation. */
  ghost predicate SingletonsCached(regs: Registrations, instances: Instances) {
    forall i :: i in regs && regs[i].singleton ==> i in instances
  }

  lemma SoundAfterGiven(regs: Registrations, instances: Instances, objects: seq<BuiltObject>, i: Interface)
    requires Sound(regs, instances, objects)
    requires i in regs && i !in instances && !NeedsBuilding(regs[i])
    ensures Sound(regs, instances[i := Given(regs[i].impl)], objects) && OutcomeOf(regs, i) == Resolved
  {
    OutcomeIsDepthFree(regs, i, 0);
    StillSound(regs, instances, objects, i, Given(regs[i].impl), objects);
  }

  lemma SoundAfterBuilt(regs: Registrations, instances: Instances, objects: seq<BuiltObject>,
                        i: Interface, kwargs: seq<KeywordArg>)
    requires Sound(regs, instances, objects)
    requires i in regs && i !in instances && NeedsBuilding(regs[i]) && OutcomeOf(regs, i) == Resolved
    requires RightArgs(regs, regs[i].impl.params, instances, kwargs)
    ensures Sound(regs, instances[i := Built(|objects|)], objects + [BuiltObject(i, kwargs)])
  {
    var t, os := instances[i := Built(|objects|)], objects + [BuiltObject(i, kwargs)];
    StillSound(regs, instances, objects, i, Built(|objects|), os);
    RightArgsStable(regs, regs[i].impl.params, instances, t, kwargs);
    assert os[|objects|] == BuiltObject(i, kwargs);
  }

  /** What was right stays right when one interface is added. */
  lemma StillSound(regs: Registrations, instances: Instances, objects: seq<BuiltObject>,
                   i: Interface, inst: Instance, objects': seq<BuiltObject>)
    requires Sound(regs, instances, objects) && i !in instances && objects <= objects'
    ensures forall j :: j in instances ==> RightInstance(regs, objects', j, instances[j])
    ensures forall n :: 0 <= n < |objects| ==> RightObject(regs, instances[i := inst], n, objects'[n])
  {
    forall n | 0 <= n < |objects| ensures RightObject(regs, instances[i := inst], n, objects'[n]) {
      var j := objects[n].owner;
      assert RightObject(regs, instances, n, objects[n]);
      RightArgsStable(regs, regs[j].impl.params, instances, instances[i := inst], objects[n].kwargs);
    }
  }

  /** How many of the first `k` parameters are annotated, and so passed by name. */
  function AnnotatedBefore(ps: seq<Param>, k: nat): nat
    requires k <= |ps|
  {
    if k == 0 then 0 else AnnotatedBefore(ps, k - 1) + if ps[k - 1].annotation.Some? then 1 else 0
  }

  lemma {:induction false} ArgumentsByParameter(regs: Registrations, ps: seq<Param>, n: nat,
                                                instances: Instances, kwargs: seq<KeywordArg>)
    requires n <= |ps| && RightArgs(regs, ps[..n], instances, kwargs)
    ensures |kwargs| == AnnotatedBefore(ps, n)
    ensures forall k :: 0 <= k < n && ps[k].annotation.Some? ==>
      AnnotatedBefore(ps, k) < |kwargs| && RightArg(regs, ps[k], instances, kwargs[AnnotatedBefore(ps, k)])
  {
    if n > 0 {
      assert ps[..n][..n - 1] == ps[..n - 1];
      var passed := if ps[n - 1].annotation.None? then kwargs else kwargs[..|kwargs| - 1];
      ArgumentsByParameter(regs, ps, n - 1, instances, passed);
    }
  }

  /**
   What a built object was given, by its parameters and the cached instances: an
   argument for each annotated parameter, in order and under its name, and it is
   the instance cached for the annotation, or the default if there is none.
   */
  lemma BuiltWithCached(regs: Registrations, instances: Instances, objects: seq<BuiltObject>, n: nat, k: nat)
    requires Sound(regs, instances, objects) && n < |objects|
    ensures objects[n].owner in regs && regs[objects[n].owner].impl.Class?
    ensures var ps, kwargs := regs[objects[n].owner].impl.params, objects[n].kwargs;
      && |kwargs| == AnnotatedBefore(ps, |ps|)
      && (k < |ps| && ps[k].annotation.Some? ==>
           var a, pos := ps[k].annotation.value, AnnotatedBefore(ps, k);
           && pos < |kwargs| && kwargs[pos].name == ps[k].name
           && (a in instances ==> kwargs[pos].arg == Dependency(instances[a]))
           && (a !in instances ==> ps[k].default.Some? && kwargs[pos].arg == DefaultValue(ps[k].default.value)))
  {
    assert RightObject(regs, instances, n, objects[n]);
    var ps := regs[objects[n].owner].impl.params;
    assert ps[..|ps|] == ps;
    ArgumentsByParameter(regs, ps, |ps|, instances, objects[n].kwargs);
  }

  /** In a sound container no interface is built twice. */
  lemma BuiltAtMostOnce(regs: Registrations, instances: Instances, objects: seq<BuiltObject>, m: nat, n: nat)
    requires Sound(regs, instances, objects)
    requires m < |objects| && n < |objects| && objects[m].owner == objects[n].owner
    ensures m == n
  {
    assert RightObject(regs, instances, m, objects[m]) && RightObject(regs, instances, n, objects[n]);
  }

  // -------------------------------------------------------------- in place

  class Container {
    var registrations: Registrations
    var instances: Instances
    var objects: seq<BuiltObject>

    constructor ()
      ensures registrations == map[] && instances == map[] && objects == []
    {
      registrations, instances, objects := map[], map[], [];
    }

    method Register(i: Interface, impl: Implementation, singletonAttribute: bool)
      modifies this
      ensures registrations == old(registrations)[i := Registration(impl, singletonAttribute)]
      ensures instances == if singletonAttribute then old(instances)[i := Given(impl)] else old(instances)
      ensures objects == old(objects)
      ensures old(Configured()) && (singletonAttribute || i !in old(instances)) ==> Configured()
    {
      registrations := registrations[i := Registration(impl, singletonAttribute)];
      if singletonAttribute {
        instances := instances[i := Given(impl)];
      }
    }

    method RegisterSingleton(i: Interface, impl: Implementation)
      modifies this
      ensures registrations == old(registrations)[i := Registration(impl, true)]
      ensures instances == old(instances)[i := Given(impl)] && objects == old(objects)
      ensures old(Configured()) ==> Configured()
    {
      Register(i, impl, true);
    }

    /** Nothing has been resolved yet: exactly the singletons are cached. */
    ghost predicate Configured()
      reads this
    {
      && objects == []
      && (forall i :: i in instances ==>
           i in registrations && registrations[i].singleton && instances[i] == Given(registrations[i].impl))
      && SingletonsCached(registrations, instances)
    }

    ghost predicate Valid()
      reads this
    {
      Sound(registrations, instances, objects) && SingletonsCached(registrations, instances)
    }

    /**
     Resolution, where `depth` is how deep the interpreter lets constructors
     nest. The outcome is the one the registrations determine, whatever was
     resolved or failed before; only a depth that is too small can end it with
     a `RecursionError` instead. A failure may leave dependencies cached but
     not the interface itself.
     */
    method Resolve(i: Interface, depth: nat) returns (r: Resolution)
      requires Valid()
      modifies this
      ensures registrations == old(registrations) && Valid()
      ensures Extends(old(instances), instances) && old(objects) <= objects
      ensures i in old(instances) ==> instances == old(instances) && objects == old(objects)
      ensures OnlyUpTo(registrations, i, old(instances), instances)
      ensures r.Ok? && i !in old(instances) && i in registrations && NeedsBuilding(registrations[i]) ==>
        objects != [] && r.instance == Built(|objects| - 1)
      ensures match r
        case Ok(instance) => OutcomeOf(registrations, i) == Resolved && i in instances && instance == instances[i]
        case Failed(RecursionError) => !Settles(registrations, i, depth) && i !in instances
        case Failed(error) => OutcomeOf(registrations, i) == error != Resolved && i !in instances
      decreases depth, 0
    {
      if i in instances {
        return Ok(instances[i]);
      }
      if i !in registrations {
        OutcomeIsDepthFree(registrations, i, 0);
        return Failed(ValueError);
      }
      var reg := registrations[i];
      if reg.impl.Class? {
        if depth == 0 {
          return Failed(RecursionError);
        }
        r := InstantiateWithDependencies(i, reg.impl.params, depth - 1);
        if r.Ok? {
          instances := instances[i := r.instance];
        }
      } else {
        SoundAfterGiven(registrations, instances, objects, i);
        instances := instances[i := Given(reg.impl)];
        r := Ok(instances[i]);
      }
    }

    /** Builds an object for `i`, whose dependencies may nest `depth` deep; the caller caches it. */
    method InstantiateWithDependencies(i: Interface, ps: seq<Param>, depth: nat) returns (r: Resolution)
      requires Valid() && i in registrations && i !in instances
      requires NeedsBuilding(registrations[i]) && ps == registrations[i].impl.params
      modifies this
      ensures registrations == old(registrations) && i !in instances
      ensures Extends(old(instances), instances) && old(objects) <= objects
      ensures OnlyBelow(registrations, i, old(instances), instances)
      ensures SingletonsCached(registrations, instances)
      ensures match r
        case Ok(instance) =>
          && OutcomeOf(registrations, i) == Resolved
          && objects != [] && instance == Built(|objects| - 1)
          && Sound(registrations, instances[i := instance], objects)
        case Failed(RecursionError) => !Settles(registrations, i, depth + 1) && Valid()
        case Failed(error) => OutcomeOf(registrations, i) == error != Resolved && Valid()
      decreases depth, 3
    {
      var outcome, kwargs := BuildArguments(i, ps, depth);
      NewlyCachedIsOther(registrations, i, old(instances), instances, objects);
      if outcome != Resolved {
        if outcome != RecursionError {
          BuildingFails(registrations, i, outcome);
        }
        return Failed(outcome);
      }
      if LacksArgument(ps) {
        BuildingLacksArgument(registrations, i);
        return Failed(TypeError);
      }
      BuildingResolvesIff(registrations, i);
      SoundAfterBuilt(registrations, instances, objects, i, kwargs);
      objects := objects + [BuiltObject(i, kwargs)];
      r := Ok(Built(|objects| - 1));
    }

    /** The loop over the parameters. */
    method BuildArguments(i: Interface, ps: seq<Param>, depth: nat)
      returns (outcome: Outcome, kwargs: seq<KeywordArg>)
      requires Valid() && i in registrations
      requires NeedsBuilding(registrations[i]) && ps == registrations[i].impl.params
      modifies this
      ensures registrations == old(registrations) && Valid()
      ensures Extends(old(instances), instances) && old(objects) <= objects
      ensures OnlyBelow(registrations, i, old(instances), instances)
      ensures if outcome == RecursionError then LoopOutcome(registrations, ps, depth) == RecursionError
              else LoopEnds(registrations, ps, outcome)
      ensures outcome == Resolved ==> RightArgs(registrations, ps, instances, kwargs)
      decreases depth, 2
    {
      kwargs := [];
      NothingToLoop(registrations, ps);
      for k := 0 to |ps|
        invariant registrations == old(registrations) && Valid()
        invariant Extends(old(instances), instances) && old(objects) <= objects
        invariant OnlyBelow(registrations, i, old(instances), instances)
        invariant LoopEnds(registrations, ps[..k], Resolved)
        invariant RightArgs(registrations, ps[..k], instances, kwargs)
      {
        var p := ps[k];
        if p.annotation.Some? {
          ParamIsBelow(registrations, i, k);
          ghost var before := instances;
          var result, arg := ResolveParam(i, p, depth);
          if result != Resolved {
            LoopFails(registrations, ps, k, result, depth);
            return result, kwargs;
          }
          NextArgument(registrations, ps, k, before, instances, kwargs, arg);
          kwargs := kwargs + [arg];
        } else {
          NoArgument(registrations, ps, k, instances, kwargs);
        }
      }
      assert ps[..|ps|] == ps;
      outcome := Resolved;
    }

    /** The body of the loop for an annotated parameter: its dependency, or else its default, or else the error. */
    method ResolveParam(ghost i: Interface, p: Param, depth: nat) returns (outcome: Outcome, arg: KeywordArg)
      requires Valid() && p.annotation.Some? && Below(registrations, p.annotation.value, i)
      modifies this
      ensures registrations == old(registrations) && Valid()
      ensures Extends(old(instances), instances) && old(objects) <= objects
      ensures OnlyBelow(registrations, i, old(instances), instances)
      ensures if outcome == RecursionError then ParamOutcome(registrations, p, depth) == RecursionError
              else ParamOutcomeOf(registrations, p) == outcome
      ensures outcome == Resolved ==> RightArg(registrations, p, instances, arg)
      decreases depth, 1
    {
      var dependency := Resolve(p.annotation.value, depth);
      UpToParamIsBelow(registrations, i, p.annotation.value, old(instances), instances);
      arg := KeywordArg(p.name, DefaultValue(""));
      if dependency.Ok? {
        return Resolved, KeywordArg(p.name, Dependency(dependency.instance));
      }
      if dependency.error == ValueError && p.default.Some? {
        return Resolved, KeywordArg(p.name, DefaultValue(p.default.value));
      }
      outcome := dependency.error;
    }
  }

  /** Resolving its dependencies never caches the interface itself. */
  lemma NewlyCachedIsOther(regs: Registrations, i: Interface, s: Instances, t: Instances, objects: seq<BuiltObject>)
    requires i !in s && OnlyBelow(regs, i, s, t) && Sound(regs, t, objects)
    ensures i !in t
  {
    if i in t {
      var d: nat :| Settles(regs, i, d);
      NotBelowItself(regs, i, d);
    }
  }

  /** A turn of the loop for a parameter that resolves. */
  lemma NextArgument(regs: Registrations, ps: seq<Param>, k: nat, before: Instances, after: Instances,
                     kwargs: seq<KeywordArg>, arg: KeywordArg)
    requires k < |ps| && LoopEnds(regs, ps[..k], Resolved) && RightArgs(regs, ps[..k], before, kwargs)
    requires Extends(before, after)
    requires ps[k].annotation.Some? && ParamOutcomeOf(regs, ps[k]) == Resolved && RightArg(regs, ps[k], after, arg)
    ensures LoopEnds(regs, ps[..k + 1], Resolved)
    ensures RightArgs(regs, ps[..k + 1], after, kwargs + [arg])
  {
    LoopGoesOn(regs, ps, k);
    RightArgsStable(regs, ps[..k], before, after, kwargs);
    assert ps[..k + 1][..k] == ps[..k] && (kwargs + [arg])[..|kwargs|] == kwargs;
  }

  /** A turn of the loop for a parameter without annotation. */
  lemma NoArgument(regs: Registrations, ps: seq<Param>, k: nat, instances: Instances, kwargs: seq<KeywordArg>)
    requires k < |ps| && LoopEnds(regs, ps[..k], Resolved) && RightArgs(regs, ps[..k], instances, kwargs)
    requires ps[k].annotation.None?
    ensures LoopEnds(regs, ps[..k + 1], Resolved) && RightArgs(regs, ps[..k + 1], instances, kwargs)
  {
    LoopGoesOn(regs, ps, k);
    assert ps[..k + 1][..k] == ps[..k];
  }

  /** Once a parameter has failed, the loop has that outcome. */
  lemma LoopFails(regs: Registrations, ps: seq<Param>, k: nat, o: Outcome, depth: nat)
    requires k < |ps| && LoopEnds(regs, ps[..k], Resolved) && o != Resolved
    requires if o == RecursionError then ParamOutcome(regs, ps[k], depth) == o else ParamOutcomeOf(regs, ps[k]) == o
    ensures if o == RecursionError then LoopOutcome(regs, ps, depth) == o else LoopEnds(regs, ps, o)
  {
    if o == RecursionError {
      PrefixAgrees(regs, ps, k, depth);
      LoopStep(regs, ps, k, depth);
      if LoopOutcome(regs, ps[..k], depth) == Resolved {
        PrefixDecides(regs, ps, k + 1, depth);
      }
    } else {
      LoopGoesOn(regs, ps, k);
      var d: nat :| LoopOutcome(regs, ps[..k + 1], d) == o;
      PrefixDecides(regs, ps, k + 1, d);
    }
  }

  /** A container that has only been configured is ready for resolution, cycles or not. */
  lemma ConfiguredIsSound(c: Container)
    requires c.Configured()
    ensures c.Valid()
  {
    forall i | i in c.instances ensures OutcomeOf(c.registrations, i) == Resolved {
      OutcomeIsDepthFree(c.registrations, i, 0);
    }
  }

  // ------------------------------------------------------- concrete resolution

  const STORE := Registration(Class("MemoryStore", []), false)

  const SERVICE := Registration(Class("Service",
    [Param("store", Some("Store"), Some("memory")), Param("clock", Some("Clock"), Some("utc"))]), false)

  const TWO_CLASSES := map["Store" := STORE, "Service" := SERVICE]

  lemma StoreResolves()
    ensures OutcomeOf(TWO_CLASSES, "Store") == Resolved && OutcomeWithin(TWO_CLASSES, "Store", 1) == Resolved
    ensures "Clock" !in TWO_CLASSES
  {
    assert LoopOutcome(TWO_CLASSES, [], 0) == Resolved;
    OutcomeIsDepthFree(TWO_CLASSES, "Store", 1);
  }

  lemma ServiceResolves()
    ensures OutcomeWithin(TWO_CLASSES, "Service", 2) == Resolved
  {
    StoreResolves();
    var ps := SERVICE.impl.params;
    LoopStep(TWO_CLASSES, ps, 0, 1);
    LoopStep(TWO_CLASSES, ps, 1, 1);
    assert ps[..0] == [] && ps[..2] == ps;
  }

  lemma StoreIsBuilt(instances: Instances, objects: seq<BuiltObject>) returns (m: nat)
    requires Sound(TWO_CLASSES, instances, objects) && "Store" in instances
    ensures m < |objects| && instances["Store"] == Built(m) && objects[m] == BuiltObject("Store", [])
  {
    assert RightInstance(TWO_CLASSES, objects, "Store", instances["Store"]);
    m := instances["Store"].index;
    assert RightObject(TWO_CLASSES, instances, m, objects[m]);
  }

  /** There is one object for each of the two classes. */
  lemma OneOfTwo(instances: Instances, objects: seq<BuiltObject>, m: nat, n: nat, k: nat)
    requires Sound(TWO_CLASSES, instances, objects) && m < |objects| && n < |objects| && k < |objects|
    requires objects[m].owner == "Store" && objects[n].owner == "Service"
    ensures k == n || k == m
  {
    assert RightObject(TWO_CLASSES, instances, k, objects[k]);
    BuiltAtMostOnce(TWO_CLASSES, instances, objects, k, if objects[k].owner == "Service" then n else m);
  }

  lemma TwoObjects(instances: Instances, objects: seq<BuiltObject>, m: nat, n: nat)
    requires Sound(TWO_CLASSES, instances, objects) && m < |objects| && n == |objects| - 1
    requires objects[m].owner == "Store" && objects[n].owner == "Service"
    ensures |objects| == 2 && m == 0
  {
    OneOfTwo(instances, objects, m, n, 0);
    if n > 1 {
      OneOfTwo(instances, objects, m, n, 1);
    }
  }

  /** What soundness says about the two classes. */
  lemma ServiceHoldsStore(instances: Instances, objects: seq<BuiltObject>)
    requires Sound(TWO_CLASSES, instances, objects) && objects != []
    requires "Service" in instances && instances["Service"] == Built(|objects| - 1)
    ensures |objects| == 2 && objects[0] == BuiltObject("Store", [])
    ensures objects[1] == BuiltObject("Service",
      [KeywordArg("store", Dependency(Built(0))), KeywordArg("clock", DefaultValue("utc"))])
  {
    StoreResolves();
    var n, ps := |objects| - 1, SERVICE.impl.params;
    assert RightInstance(TWO_CLASSES, objects, "Service", instances["Service"]);
    assert RightObject(TWO_CLASSES, instances, n, objects[n]);
    assert AnnotatedBefore(ps, 0) == 0 && AnnotatedBefore(ps, 1) == 1 && AnnotatedBefore(ps, 2) == 2;
    assert ps[..2] == ps;
    ArgumentsByParameter(TWO_CLASSES, ps, 2, instances, objects[n].kwargs);
    assert RightArg(TWO_CLASSES, ps[0], instances, objects[n].kwargs[0]);
    var m := StoreIsBuilt(instances, objects);
    TwoObjects(instances, objects, m, n);
    BuiltWithCached(TWO_CLASSES, instances, objects, n, 0);
    BuiltWithCached(TWO_CLASSES, instances, objects, n, 1);
  }

  /**
   A service that asks for a store, which is registered although the parameter
   has a default, and for a clock that is not: it is given the store that was
   built for it, and the default clock.
   */
  method ServiceWithStore() returns (r: Resolution, objects: seq<BuiltObject>)
    ensures r == Ok(Built(1)) && |objects| == 2
    ensures objects[0] == BuiltObject("Store", [])
    ensures objects[1] == BuiltObject("Service",
      [KeywordArg("store", Dependency(Built(0))), KeywordArg("clock", DefaultValue("utc"))])
  {
    var container := new Container();
    container.Register("Store", STORE.impl, false);
    container.Register("Service", SERVICE.impl, false);
    assert container.registrations == TWO_CLASSES;
    ConfiguredIsSound(container);
    ServiceResolves();
    OutcomeIsDepthFree(TWO_CLASSES, "Service", 2);
    r := container.Resolve("Service", 2);
    ServiceHoldsStore(container.instances, container.objects);
    objects := container.objects;
  }
}
