/** When the evaluator returns (packages/invariants/src/evaluate.ts, `evaluateInvariant`): the code recurses through
    `dependsOn` on any registry, cyclic ones included, so it is given here a bound on the depth of its calls. */
module Termination {
  import opened Prelude
  import opened Registry
  import Digraph

  // ---------- the evaluator on any registry ----------

  /** Evaluation within `fuel` nested calls; nothing when that is not deep enough. */
  function Attempt(env: Environment, inv: Invariant, fuel: nat): Option<Evaluation>
    decreases fuel, 0
  {
    if fuel == 0 then None else
    match OwnFailure(env, inv)
    case Some(answer) => Some(answer)
    case None =>
      match AttemptFirst(env, inv, 0, fuel - 1)
      case None => None
      case Some(first) => Some(Conclude(env, inv, first))
  }

  /** The loop over the dependencies from position `k` on. */
  function AttemptFirst(env: Environment, inv: Invariant, k: nat, fuel: nat): Option<Option<(string, Evaluation)>>
    requires k <= |inv.dependsOn|
    decreases fuel, 1 + |inv.dependsOn| - k
  {
    if k == |inv.dependsOn| then Some(None) else
    match Find(env.registry, inv.dependsOn[k])
    case None => AttemptFirst(env, inv, k + 1, fuel)
    case Some(dep) =>
      match Attempt(env, dep, fuel)
      case None => None
      case Some(result) =>
        if result.status != Satisfied then Some(Some((inv.dependsOn[k], result)))
        else AttemptFirst(env, inv, k + 1, fuel)
  }

  /** The call returns: some depth is enough. */
  ghost predicate Returns(env: Environment, inv: Invariant) {
    exists fuel :: Attempt(env, inv, fuel).Some?
  }

  /** More depth changes no answer. */
  lemma {:induction false} AttemptMore(env: Environment, inv: Invariant, fuel: nat, more: nat)
    requires Attempt(env, inv, fuel).Some? && fuel <= more
    ensures Attempt(env, inv, more) == Attempt(env, inv, fuel)
    decreases fuel, 0
  {
    if OwnFailure(env, inv).None? { FirstMore(env, inv, 0, fuel - 1, more - 1); }
  }

  lemma {:induction false} FirstMore(env: Environment, inv: Invariant, k: nat, fuel: nat, more: nat)
    requires k <= |inv.dependsOn| && AttemptFirst(env, inv, k, fuel).Some? && fuel <= more
    ensures AttemptFirst(env, inv, k, more) == AttemptFirst(env, inv, k, fuel)
    decreases fuel, 1 + |inv.dependsOn| - k
  {
    if k < |inv.dependsOn| {
      match Find(env.registry, inv.dependsOn[k]) {
        case None => FirstMore(env, inv, k + 1, fuel, more);
        case Some(dep) =>
          AttemptMore(env, dep, fuel, more);
          if Attempt(env, dep, fuel).value.status == Satisfied { FirstMore(env, inv, k + 1, fuel, more); }
      }
    }
  }

  /** On a registry that can be evaluated, a depth of one call for each invariant in the closure and one more is enough,
      and gives the evaluation. */
  lemma {:induction false} AttemptAgrees(env: Environment, inv: Invariant, fuel: nat)
    requires Evaluable(env.registry) && fuel > |Closure(env.registry, inv)|
    ensures Attempt(env, inv, fuel) == Some(Evaluate(env, inv))
    decreases fuel, 0
  {
    if OwnFailure(env, inv).None? { FirstAgrees(env, inv, 0, fuel - 1); }
  }

  lemma {:induction false} FirstAgrees(env: Environment, inv: Invariant, k: nat, fuel: nat)
    requires Evaluable(env.registry) && k <= |inv.dependsOn| && fuel >= |Closure(env.registry, inv)|
    ensures AttemptFirst(env, inv, k, fuel) == Some(FirstUnsatisfied(env, inv, k))
    decreases fuel, 1 + |inv.dependsOn| - k
  {
    if k < |inv.dependsOn| {
      match Find(env.registry, inv.dependsOn[k]) {
        case None => FirstAgrees(env, inv, k + 1, fuel);
        case Some(dep) =>
          ClosureShrinks(env.registry, inv, inv.dependsOn[k]);
          SmallerSet(Closure(env.registry, dep), Closure(env.registry, inv));
          AttemptAgrees(env, dep, fuel);
          FirstAgrees(env, inv, k + 1, fuel);
      }
    }
  }

  lemma SmallerSet(a: set<string>, b: set<string>)
    requires a < b
    ensures |a| < |b|
  {
    var x :| x in b && x !in a;
    assert a <= b - {x};
    SubsetSize(a, b - {x});
  }

  lemma {:induction false} SubsetSize(a: set<string>, b: set<string>)
    requires a <= b
    ensures |a| <= |b|
  {
    if x :| x in a { SubsetSize(a - {x}, b - {x}); }
  }

  /** An invariant whose observations hold and whose first registered dependency is itself never returns. */
  lemma {:induction false} SelfDependent(env: Environment, inv: Invariant, fuel: nat)
    requires AllHeld(env, inv) && Find(env.registry, inv.id) == Some(inv)
    requires inv.dependsOn != [] && inv.dependsOn[0] == inv.id
    ensures Attempt(env, inv, fuel).None?
  {
    OwnState(env, inv);
    if fuel > 0 { SelfDependent(env, inv, fuel - 1); }
  }

  // ---------- what evaluation can come to ----------

  /** From each registered invariant, in the form the evaluator finds it, to its registered dependencies. */
  ghost function Found(registry: seq<Invariant>): set<(string, string)> {
    set inv, d | inv in registry && d in inv.dependsOn && Find(registry, inv.id) == Some(inv) && Find(registry, d).Some?
      :: (inv.id, d)
  }

  /** A critical invariant that observes nothing can never be seen to fail, and so is never satisfied. */
  predicate Barren(inv: Invariant) {
    inv.severity == "critical" && inv.observations == []
  }

  predicate BarrenId(registry: seq<Invariant>, id: string) {
    Find(registry, id).Some? && Barren(Find(registry, id).value)
  }

  /** Nothing an evaluation of this id comes to is barren: some environment satisfies it, if evaluation returns. */
  ghost predicate CanHold(registry: seq<Invariant>, id: string) {
    !BarrenId(registry, id) && forall y :: Digraph.Reaches(Found(registry), id, y) ==> !BarrenId(registry, y)
  }

  /** Some environment takes the loop to position `k`: it is registered, and what comes before it can hold. */
  ghost predicate Enters(registry: seq<Invariant>, inv: Invariant, k: nat) {
    && k < |inv.dependsOn| && Find(registry, inv.dependsOn[k]).Some?
    && forall j :: 0 <= j < k && Find(registry, inv.dependsOn[j]).Some? ==> CanHold(registry, inv.dependsOn[j])
  }

  ghost predicate EntersTo(registry: seq<Invariant>, inv: Invariant, d: string) {
    exists k: nat :: Enters(registry, inv, k) && inv.dependsOn[k] == d
  }

  /** The dependencies some evaluation enters. */
  ghost function Entered(registry: seq<Invariant>): set<(string, string)> {
    set e | e in Found(registry) && Find(registry, e.0).Some? && EntersTo(registry, Find(registry, e.0).value, e.1)
  }

  lemma FoundEdge(registry: seq<Invariant>, inv: Invariant, k: nat)
    requires Find(registry, inv.id) == Some(inv) && k < |inv.dependsOn| && Find(registry, inv.dependsOn[k]).Some?
    ensures (inv.id, inv.dependsOn[k]) in Found(registry)
  {
    FindMember(registry, inv.id);
  }

  lemma FoundFirst(registry: seq<Invariant>, id: string)
    requires Find(registry, id).Some?
    ensures Find(registry, id).value.id == id && Find(registry, Find(registry, id).value.id) == Find(registry, id)
  {
    FindMember(registry, id);
  }

  predicate DependencyStuck(env: Environment, id: string, fuel: nat) {
    Find(env.registry, id).Some? && Attempt(env, Find(env.registry, id).value, fuel).None?
  }

  predicate DependencySatisfied(env: Environment, id: string, fuel: nat) {
    Find(env.registry, id).Some? ==>
      var result := Attempt(env, Find(env.registry, id).value, fuel);
      result.Some? && result.value.status == Satisfied
  }

  predicate SatisfiedOrStuck(env: Environment, id: string, fuel: nat) {
    DependencySatisfied(env, id, fuel) || DependencyStuck(env, id, fuel)
  }

  /** The loop finds nothing exactly when every dependency is satisfied. */
  lemma {:induction false} LoopExact(env: Environment, inv: Invariant, k: nat, fuel: nat)
    requires k <= |inv.dependsOn|
    ensures AttemptFirst(env, inv, k, fuel) == Some(None) <==>
      forall i :: k <= i < |inv.dependsOn| ==> DependencySatisfied(env, inv.dependsOn[i], fuel)
    decreases |inv.dependsOn| - k
  {
    if k < |inv.dependsOn| {
      LoopExact(env, inv, k + 1, fuel);
      assert DependencySatisfied(env, inv.dependsOn[k], fuel) ==>
        AttemptFirst(env, inv, k, fuel) == AttemptFirst(env, inv, k + 1, fuel);
    }
  }

  /** What the loop finds returned, and is not satisfied. */
  lemma {:induction false} LoopFinds(env: Environment, inv: Invariant, k: nat, fuel: nat, d: string)
    requires k <= |inv.dependsOn|
    requires var first := AttemptFirst(env, inv, k, fuel); first.Some? && first.value.Some? && first.value.value.0 == d
    ensures d in inv.dependsOn && !SatisfiedOrStuck(env, d, fuel)
    decreases |inv.dependsOn| - k
  {
    if k < |inv.dependsOn| && AttemptFirst(env, inv, k, fuel) == AttemptFirst(env, inv, k + 1, fuel) {
      LoopFinds(env, inv, k + 1, fuel, d);
    }
  }

  /** The loop stops for want of depth at a dependency that needs more, if nothing before it settles the answer. */
  lemma {:induction false} LoopStuck(env: Environment, inv: Invariant, k: nat, fuel: nat, j: nat)
    requires k <= j < |inv.dependsOn| && DependencyStuck(env, inv.dependsOn[j], fuel)
    requires forall i :: k <= i < j ==> SatisfiedOrStuck(env, inv.dependsOn[i], fuel)
    ensures AttemptFirst(env, inv, k, fuel).None?
    decreases j - k
  {
    if k < j { LoopStuck(env, inv, k + 1, fuel, j); }
  }

  // ---------- evaluation returns where what it enters is acyclic ----------

  lemma {:induction false} SatisfiedCanHold(env: Environment, inv: Invariant, fuel: nat)
    requires Find(env.registry, inv.id) == Some(inv) && DependencySatisfied(env, inv.id, fuel)
    ensures CanHold(env.registry, inv.id)
    decreases fuel
  {
    var g := Found(env.registry);
    OwnState(env, inv);
    LoopExact(env, inv, 0, fuel - 1);
    forall y | Digraph.Reaches(g, inv.id, y)
      ensures !BarrenId(env.registry, y)
    {
      var c := Digraph.FirstStep(g, inv.id, y);
      assert c in inv.dependsOn && Find(env.registry, c).Some?;
      FoundFirst(env.registry, c);
      SatisfiedCanHold(env, Find(env.registry, c).value, fuel - 1);
    }
  }

  /** If every dependency some environment enters returns here, so does the loop. */
  lemma {:induction false} LoopReturns(env: Environment, inv: Invariant, k: nat) returns (fuel: nat)
    requires k <= |inv.dependsOn|
    requires forall d :: EntersTo(env.registry, inv, d) && Find(env.registry, d).Some? ==>
      Returns(env, Find(env.registry, d).value)
    requires forall j :: 0 <= j < k && Find(env.registry, inv.dependsOn[j]).Some? ==>
      CanHold(env.registry, inv.dependsOn[j])
    ensures AttemptFirst(env, inv, k, fuel).Some?
    decreases |inv.dependsOn| - k
  {
    if k == |inv.dependsOn| {
      fuel := 0;
    } else if Find(env.registry, inv.dependsOn[k]).None? {
      fuel := LoopReturns(env, inv, k + 1);
    } else {
      var dep := Find(env.registry, inv.dependsOn[k]).value;
      assert Enters(env.registry, inv, k);
      assert EntersTo(env.registry, inv, inv.dependsOn[k]);
      var first :| Attempt(env, dep, first).Some?;
      if Attempt(env, dep, first).value.status == Satisfied {
        FoundFirst(env.registry, inv.dependsOn[k]);
        SatisfiedCanHold(env, dep, first);
        var rest := LoopReturns(env, inv, k + 1);
        fuel := if first < rest then rest else first;
        AttemptMore(env, dep, first, fuel);
        FirstMore(env, inv, k + 1, rest, fuel);
      } else {
        fuel := first;
      }
    }
  }

  lemma ReturnsAfterLoop(env: Environment, inv: Invariant, fuel: nat)
    requires AttemptFirst(env, inv, 0, fuel).Some?
    ensures Returns(env, inv)
  {
    assert Attempt(env, inv, fuel + 1).Some?;
  }

  lemma {:induction false} FoundReturns(env: Environment, id: string)
    requires Digraph.Acyclic(Entered(env.registry)) && Find(env.registry, id).Some?
    ensures Returns(env, Find(env.registry, id).value)
    decreases Digraph.Below(Entered(env.registry), id)
  {
    var inv := Find(env.registry, id).value;
    FoundFirst(env.registry, id);
    forall d | EntersTo(env.registry, inv, d) && Find(env.registry, d).Some?
      ensures Returns(env, Find(env.registry, d).value)
    {
      var k: nat :| Enters(env.registry, inv, k) && inv.dependsOn[k] == d;
      FoundEdge(env.registry, inv, k);
      Digraph.BelowShrinks(Entered(env.registry), id, d);
      FoundReturns(env, d);
    }
    var fuel := LoopReturns(env, inv, 0);
    ReturnsAfterLoop(env, inv, fuel);
  }

  /** An invariant need not be the one its id finds: a later duplicate is evaluated through the same dependencies. */
  lemma AnyReturns(env: Environment, inv: Invariant)
    requires Digraph.Acyclic(Entered(env.registry))
    ensures Returns(env, inv)
  {
    forall d | EntersTo(env.registry, inv, d) && Find(env.registry, d).Some?
      ensures Returns(env, Find(env.registry, d).value)
    {
      FoundReturns(env, d);
    }
    var fuel := LoopReturns(env, inv, 0);
    ReturnsAfterLoop(env, inv, fuel);
  }

  // ---------- and does not where it is cyclic ----------

  function Observed(registry: seq<Invariant>): set<string> {
    set inv, o | inv in registry && o in inv.observations :: o
  }

  /** Everything observed holds and has been seen to fail. */
  function Ideal(registry: seq<Invariant>): Environment {
    Environment(registry, map o | o in Observed(registry) :: Observation(Flag(true), ""), Observed(registry))
  }

  lemma IdealHolds(registry: seq<Invariant>, inv: Invariant)
    requires inv in registry
    ensures AllHeld(Ideal(registry), inv) && OwnFailure(Ideal(registry), inv).None?
    ensures !Barren(inv) && inv.severity == "critical" ==> Falsifiable(Ideal(registry), inv)
  {
    OwnState(Ideal(registry), inv);
    forall id | id in inv.observations
      ensures id in Observed(registry)
    {
    }
    if inv.observations != [] { assert inv.observations[0] in inv.observations; }
  }

  lemma ReachableCanHold(registry: seq<Invariant>, inv: Invariant, d: string)
    requires Find(registry, inv.id) == Some(inv) && CanHold(registry, inv.id)
    requires d in inv.dependsOn && Find(registry, d).Some?
    ensures CanHold(registry, d)
  {
    FindMember(registry, inv.id);
    var g := Found(registry);
    assert (inv.id, d) in g;
    Digraph.EdgeReaches(g, inv.id, d);
    forall y | Digraph.Reaches(g, d, y)
      ensures !BarrenId(registry, y)
    {
      Digraph.ReachesTrans(g, inv.id, d, y);
    }
  }

  /** In the ideal environment what can hold does, whenever its evaluation returns. */
  lemma {:induction false} IdealSatisfies(registry: seq<Invariant>, id: string, fuel: nat)
    requires Find(registry, id).Some? && CanHold(registry, id)
    ensures SatisfiedOrStuck(Ideal(registry), id, fuel)
    decreases fuel
  {
    var env, inv := Ideal(registry), Find(registry, id).value;
    FoundFirst(registry, id);
    FindMember(registry, id);
    IdealHolds(registry, inv);
    if fuel > 0 {
      var first := AttemptFirst(env, inv, 0, fuel - 1);
      if first.Some? && first.value.Some? {
        var d := first.value.value.0;
        LoopFinds(env, inv, 0, fuel - 1, d);
        ReachableCanHold(registry, inv, d);
        IdealSatisfies(registry, d, fuel - 1);
      }
    }
  }

  /** On a cycle of entered dependencies the ideal evaluation goes round for ever. */
  lemma {:induction false} CycleStuck(registry: seq<Invariant>, id: string, fuel: nat)
    requires Digraph.Reaches(Entered(registry), id, id)
    ensures DependencyStuck(Ideal(registry), id, fuel)
    decreases fuel
  {
    var g := Entered(registry);
    var next := Digraph.FirstStep(g, id, id);
    var env, inv := Ideal(registry), Find(registry, id).value;
    FoundFirst(registry, id);
    FindMember(registry, id);
    IdealHolds(registry, inv);
    if fuel > 0 {
      Digraph.EdgeReaches(g, id, next);
      if next != id { Digraph.ReachesTrans(g, next, id, next); }
      CycleStuck(registry, next, fuel - 1);
      var k: nat :| Enters(registry, inv, k) && inv.dependsOn[k] == next;
      forall i | 0 <= i < k
        ensures SatisfiedOrStuck(env, inv.dependsOn[i], fuel - 1)
      {
        if Find(registry, inv.dependsOn[i]).Some? { IdealSatisfies(registry, inv.dependsOn[i], fuel - 1); }
      }
      LoopStuck(env, inv, 0, fuel - 1, k);
    }
  }

  // ---------- exactly when evaluation returns ----------

  ghost predicate AlwaysReturns(registry: seq<Invariant>) {
    forall env: Environment, inv :: env.registry == registry && inv in registry ==> Returns(env, inv)
  }

  /** Every invariant of a registry evaluates, whatever is observed and whatever has been falsified, exactly when the
      dependencies an evaluation can enter do not close on themselves. */
  lemma ReturnsExactly(registry: seq<Invariant>)
    ensures AlwaysReturns(registry) <==> Digraph.Acyclic(Entered(registry))
  {
    if Digraph.Acyclic(Entered(registry)) {
      forall env: Environment, inv | env.registry == registry && inv in registry
        ensures Returns(env, inv)
      {
        AnyReturns(env, inv);
      }
    } else {
      var id :| Digraph.Reaches(Entered(registry), id, id);
      CycleStuck(registry, id, 0);
      FindMember(registry, id);
      forall fuel: nat
        ensures Attempt(Ideal(registry), Find(registry, id).value, fuel).None?
      {
        CycleStuck(registry, id, fuel);
      }
      assert !Returns(Ideal(registry), Find(registry, id).value);
    }
  }

  lemma {:induction false} RegisteredWalk(registry: seq<Invariant>, p: seq<string>)
    requires DistinctIds(registry) && |p| >= 2 && Digraph.IsWalk(Dependencies(ById(registry)), p)
    requires p[|p| - 1] in ById(registry) && forall inv :: inv in registry ==> !Barren(inv)
    ensures Digraph.IsWalk(Entered(registry), p)
  {
    var byId := ById(registry);
    forall i | 0 < i < |p|
      ensures (p[i - 1], p[i]) in Entered(registry)
    {
      assert (p[i - 1], p[i]) in Dependencies(byId);
      if i < |p| - 1 { assert (p[i], p[i + 1]) in Dependencies(byId); }
      EveryDependencyEntered(registry, p[i - 1], p[i]);
    }
  }

  lemma EveryDependencyEntered(registry: seq<Invariant>, id: string, d: string)
    requires DistinctIds(registry) && (id, d) in Dependencies(ById(registry)) && d in ById(registry)
    requires forall inv :: inv in registry ==> !Barren(inv)
    ensures (id, d) in Entered(registry)
  {
    LookupsAgree(registry, id);
    LookupsAgree(registry, d);
    FoundFirst(registry, id);
    FindMember(registry, id);
    var inv := Find(registry, id).value;
    var k :| 0 <= k < |inv.dependsOn| && inv.dependsOn[k] == d;
    forall x
      ensures !BarrenId(registry, x)
    {
      FindMember(registry, x);
    }
    assert Enters(registry, inv, k);
    assert EntersTo(registry, inv, d);
  }

  lemma EnteredDepends(registry: seq<Invariant>)
    requires DistinctIds(registry)
    ensures Entered(registry) <= Dependencies(ById(registry))
  {
    forall e | e in Entered(registry)
      ensures e in Dependencies(ById(registry))
    {
      LookupsAgree(registry, e.0);
    }
  }

  /** Where ids are distinct and no critical invariant observes nothing, both of which the validator reports, evaluation
      always returns exactly when `dependsOn` has no cycle. */
  lemma ReturnsUnlessCyclic(registry: seq<Invariant>)
    requires DistinctIds(registry) && forall inv :: inv in registry ==> !Barren(inv)
    ensures AlwaysReturns(registry) <==> Digraph.Acyclic(Dependencies(ById(registry)))
  {
    ReturnsExactly(registry);
    EnteredDepends(registry);
    if Digraph.Acyclic(Dependencies(ById(registry))) {
      Digraph.SubgraphAcyclic(Entered(registry), Dependencies(ById(registry)));
    } else {
      var g := Dependencies(ById(registry));
      var x :| Digraph.Reaches(g, x, x);
      var p :| Digraph.Joins(g, p, x, x);
      assert (p[0], p[1]) in g;
      RegisteredWalk(registry, p);
      assert Digraph.Joins(Entered(registry), p, x, x);
      assert Digraph.Reaches(Entered(registry), x, x);
    }
  }

  /** Without that a cycle may be out of reach: here the second invariant depends on itself, but only after one that can
      never be satisfied, so evaluation of either always returns. */
  lemma BarrenShields(a: Invariant, b: Invariant)
    requires Barren(a) && a.dependsOn == [] && a.id != b.id && b.dependsOn == [a.id, b.id]
    ensures DistinctIds([a, b]) && !Digraph.Acyclic(Dependencies(ById([a, b]))) && AlwaysReturns([a, b])
  {
    var registry := [a, b];
    assert ById([a]) == map[a.id := a] by { assert [a][..0] == []; }
    assert ById(registry) == map[a.id := a, b.id := b] by { assert registry[..1] == [a]; }
    assert (b.id, b.id) in Dependencies(ById(registry));
    Digraph.EdgeReaches(Dependencies(ById(registry)), b.id, b.id);
    assert Find(registry, a.id) == Some(a) && Find(registry, b.id) == Some(b) by { assert registry[1..] == [b]; }
    assert BarrenId(registry, a.id) && !CanHold(registry, a.id);
    assert b.dependsOn[0] == a.id;
    forall e | e in Entered(registry)
      ensures e == (b.id, a.id)
    {
      var k: nat :| Enters(registry, Find(registry, e.0).value, k) && Find(registry, e.0).value.dependsOn[k] == e.1;
    }
    forall x
      ensures !Digraph.Reaches(Entered(registry), x, x)
    {
      if Digraph.Reaches(Entered(registry), x, x) {
        var c := Digraph.FirstStep(Entered(registry), x, x);
        var d := Digraph.LastStep(Entered(registry), x, x);
      }
    }
    ReturnsExactly(registry);
  }

  lemma UnobservedDeserved(registry: seq<Invariant>, inv: Invariant)
    requires inv in registry
    ensures inv.observations == [] ==> Deserved(registry, |registry|, Defect(inv.id, NoObservation))
  {
    var k :| 0 <= k < |registry| && registry[k] == inv;
    assert inv.observations == [] ==> Suffers(registry, k, NoObservation);
  }

  /** So where the validator reports neither a duplicate id nor an invariant that names no observation, evaluation
      always returns exactly when it reports no cycle. */
  lemma ValidatorDecides(registry: seq<Invariant>, defects: seq<Defect>)
    requires Reports(registry, defects)
    requires forall d :: d in defects ==> !d.problem.DuplicateId? && !d.problem.NoObservation?
    ensures AlwaysReturns(registry) <==> forall d :: d in defects ==> !d.problem.DependencyCycle?
  {
    DistinctExactly(registry);
    forall inv | inv in registry
      ensures !Barren(inv)
    {
      UnobservedDeserved(registry, inv);
    }
    ReturnsUnlessCyclic(registry);
  }
}
