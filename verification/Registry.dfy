/** The invariant registry (packages/invariants/src): structural validation with its depth-first search
    for dependency cycles, and the evaluator whose recursion relies on there being none. */
module Registry {
  import opened Prelude
  import Digraph

  datatype Invariant = Invariant(id: string, category: string, severity: string, rationale: string,
                                 observations: seq<string>, protects: seq<string>, dependsOn: seq<string>,
                                 evidenceKinds: seq<string>)

  const CATEGORIES: set<string> :=
    {"security", "privacy", "ai", "evidence", "governance", "audit", "tenancy", "verification"}
  const SEVERITIES: set<string> := {"critical", "high", "medium"}
  /** The evidence kinds that may raise an invariant; the others can only lower one. */
  const RAISING: set<string> := {"integration", "telemetry", "audit"}

  // ---------- the dependency relation ----------

  /** `new Map(registry.map(i => [i.id, i]))`: a later invariant replaces an earlier one with the same id. */
  function ById(registry: seq<Invariant>): map<string, Invariant> {
    if registry == [] then map[] else
    var inv := registry[|registry| - 1];
    ById(registry[..|registry| - 1])[inv.id := inv]
  }

  /** `registry.find(i => i.id === id)`: the first one wins. */
  function Find(registry: seq<Invariant>, id: string): Option<Invariant> {
    if registry == [] then None
    else if registry[0].id == id then Some(registry[0])
    else Find(registry[1..], id)
  }

  function Dependencies(byId: map<string, Invariant>): set<(string, string)> {
    set id, d | id in byId && d in byId[id].dependsOn :: (id, d)
  }

  ghost predicate DistinctIds(registry: seq<Invariant>) {
    forall i, j :: 0 <= i < j < |registry| ==> registry[i].id != registry[j].id
  }

  /** What evaluation relies on: one invariant per id, and no dependency cycle. */
  ghost predicate Evaluable(registry: seq<Invariant>) {
    DistinctIds(registry) && Digraph.Acyclic(Dependencies(ById(registry)))
  }

  /** The last declaration with this id, and the first. */
  ghost predicate LastOf(registry: seq<Invariant>, id: string, i: int) {
    0 <= i < |registry| && registry[i].id == id && forall j :: i < j < |registry| ==> registry[j].id != id
  }

  ghost predicate FirstOf(registry: seq<Invariant>, id: string, i: int) {
    0 <= i < |registry| && registry[i].id == id && forall j :: 0 <= j < i ==> registry[j].id != id
  }

  lemma {:induction false} ByIdMember(registry: seq<Invariant>, id: string)
    ensures id in ById(registry) <==> exists i :: 0 <= i < |registry| && registry[i].id == id
    ensures id in ById(registry) ==> ById(registry)[id] in registry && ById(registry)[id].id == id
    ensures id in ById(registry) ==> exists i :: LastOf(registry, id, i) && registry[i] == ById(registry)[id]
  {
    if registry != [] {
      var n := |registry| - 1;
      ByIdMember(registry[..n], id);
      if id in ById(registry[..n]) {
        var i :| 0 <= i < n && registry[..n][i].id == id;
        assert registry[i].id == id;
      }
      assert id == registry[n].id ==> registry[n].id == id;
      forall i | 0 <= i < |registry| && registry[i].id == id
        ensures id in ById(registry)
      {
        if i < n { assert registry[..n][i].id == id; }
      }
      if registry[n].id == id {
        assert LastOf(registry, id, n);
      } else if id in ById(registry[..n]) {
        var i :| LastOf(registry[..n], id, i) && registry[..n][i] == ById(registry[..n])[id];
        assert LastOf(registry, id, i);
      }
    }
  }

  lemma {:induction false} FindMember(registry: seq<Invariant>, id: string)
    ensures Find(registry, id).Some? ==> Find(registry, id).value in registry && Find(registry, id).value.id == id
    ensures Find(registry, id).None? ==> forall i :: 0 <= i < |registry| ==> registry[i].id != id
    ensures Find(registry, id).Some? ==> exists i :: FirstOf(registry, id, i) && registry[i] == Find(registry, id).value
  {
    if registry != [] {
      FindMember(registry[1..], id);
      if registry[0].id == id {
        assert FirstOf(registry, id, 0);
      } else if Find(registry, id).Some? {
        var i :| FirstOf(registry[1..], id, i) && registry[1..][i] == Find(registry, id).value;
        assert forall j :: 0 < j < |registry| ==> registry[j] == registry[1..][j - 1];
        assert FirstOf(registry, id, i + 1);
      }
      if Find(registry, id).None? {
        forall i | 0 <= i < |registry| ensures registry[i].id != id {
          if i > 0 { assert registry[1..][i - 1].id != id; }
        }
      }
    }
  }

  /** With distinct ids, the validator's last-wins map and the evaluator's first-wins search agree. */
  lemma LookupsAgree(registry: seq<Invariant>, id: string)
    requires DistinctIds(registry)
    ensures Find(registry, id) == if id in ById(registry) then Some(ById(registry)[id]) else None
  {
    ByIdMember(registry, id);
    FindMember(registry, id);
    if id in ById(registry) {
      var i :| 0 <= i < |registry| && registry[i].id == id;
      var j :| 0 <= j < |registry| && registry[j] == ById(registry)[id];
      assert i == j;
      if Find(registry, id).Some? {
        var k :| 0 <= k < |registry| && registry[k] == Find(registry, id).value;
        assert k == j;
      }
    }
  }

  // ---------- the cycle search ----------

  datatype Mark = Visiting | Done

  /** A reported cycle: consecutive ids are dependencies and the last id repeats the first. */
  ghost predicate Genuine(g: set<(string, string)>, c: seq<string>) {
    c != [] && Digraph.Joins(g, c, c[0], c[0])
  }

  /** Everything a finished id depends on finished before it. */
  ghost predicate FinishOrder(g: set<(string, string)>, finished: seq<string>) {
    forall i, d :: 0 <= i < |finished| && (finished[i], d) in g ==> d in finished[..i]
  }

  lemma {:induction false} WalkFinishesEarlier(g: set<(string, string)>, finished: seq<string>, p: seq<string>, i: nat)
    requires FinishOrder(g, finished) && i < |finished|
    requires |p| >= 2 && p[0] == finished[i] && Digraph.IsWalk(g, p)
    ensures p[|p| - 1] in finished[..i]
    decreases |p|
  {
    assert (p[0], p[1]) in g;
    var j :| 0 <= j < i && finished[j] == p[1];
    if |p| > 2 {
      WalkFinishesEarlier(g, finished, p[1..], j);
    }
  }

  lemma {:induction false} NoEarliestReturn(g: set<(string, string)>, finished: seq<string>, x: string, i: nat)
    requires FinishOrder(g, finished) && i < |finished| && finished[i] == x
    ensures !Digraph.Reaches(g, x, x)
    decreases i
  {
    if Digraph.Reaches(g, x, x) {
      var p :| Digraph.Joins(g, p, x, x);
      WalkFinishesEarlier(g, finished, p, i);
      var j :| 0 <= j < i && finished[j] == x;
      NoEarliestReturn(g, finished, x, j);
    }
  }

  lemma FinishOrderAcyclic(g: set<(string, string)>, finished: seq<string>)
    requires FinishOrder(g, finished) && forall e :: e in g ==> e.0 in finished
    ensures Digraph.Acyclic(g)
  {
    forall x
      ensures !Digraph.Reaches(g, x, x)
    {
      if x in finished {
        var i :| 0 <= i < |finished| && finished[i] == x;
        NoEarliestReturn(g, finished, x, i);
      } else if Digraph.Reaches(g, x, x) {
        var c := Digraph.FirstStep(g, x, x);
        assert false;
      }
    }
  }

  /** The ids a walk can meet. */
  function Universe(byId: map<string, Invariant>): set<string> {
    byId.Keys + (set id, d | id in byId && d in byId[id].dependsOn :: d)
  }

  function DependsOn(byId: map<string, Invariant>, id: string): seq<string> {
    if id in byId then byId[id].dependsOn else []
  }

  function IndexOf(s: seq<string>, x: string): (i: nat)
    requires x in s
    ensures i < |s| && s[i] == x && x !in s[..i]
  {
    if s[0] == x then 0 else
    var k := IndexOf(s[1..], x);
    assert s[..k + 1] == [s[0]] + s[1..][..k];
    k + 1
  }

  /** Cutting a path at an id it already contains and closing it gives a genuine cycle. */
  lemma CloseCycle(g: set<(string, string)>, path: seq<string>, id: string)
    requires Digraph.IsWalk(g, path + [id]) && id in path
    ensures Genuine(g, path[IndexOf(path, id)..] + [id])
  {
    var k := IndexOf(path, id);
    var c := path[k..] + [id];
    forall i | 0 < i < |c| ensures (c[i - 1], c[i]) in g {
      assert c[i - 1] == (path + [id])[k + i - 1] && c[i] == (path + [id])[k + i];
    }
  }

  /** What the colouring means while `path` is being walked. */
  ghost predicate Coloured(g: set<(string, string)>, state: map<string, Mark>, cycles: seq<seq<string>>,
                           finished: seq<string>, path: seq<string>) {
    && (forall x :: x in path <==> x in state && state[x] == Visiting)
    && (forall x :: x in finished <==> x in state && state[x] == Done)
    && (forall c :: c in cycles ==> Genuine(g, c))
    && (cycles == [] ==> FinishOrder(g, finished))
  }

  class CycleSearch {
    const byId: map<string, Invariant>
    var state: map<string, Mark>
    var cycles: seq<seq<string>>
    ghost var finished: seq<string>

    constructor (byId: map<string, Invariant>)
      ensures this.byId == byId && state == map[] && cycles == [] && finished == []
    {
      this.byId := byId;
      state, cycles, finished := map[], [], [];
    }

    method Walk(id: string, path: seq<string>)
      requires id in Universe(byId) && Digraph.IsWalk(Dependencies(byId), path + [id])
      requires Coloured(Dependencies(byId), state, cycles, finished, path)
      modifies this
      ensures Coloured(Dependencies(byId), state, cycles, finished, path)
      ensures id in state && old(state.Keys) <= state.Keys
      ensures old(cycles) <= cycles
      ensures forall x :: x in old(finished) ==> x in finished
      ensures cycles == [] ==> id in finished
      decreases Universe(byId) - state.Keys
    {
      ghost var g := Dependencies(byId);
      if id in state && state[id] == Done {
        return;
      }
      if id in state && state[id] == Visiting {
        CloseCycle(g, path, id);
        cycles := cycles + [path[IndexOf(path, id)..] + [id]];
        return;
      }
      state := state[id := Visiting];
      var deps := DependsOn(byId, id);
      for k := 0 to |deps|
        invariant Coloured(g, state, cycles, finished, path + [id])
        invariant old(state.Keys) + {id} <= state.Keys
        invariant old(cycles) <= cycles
        invariant forall x :: x in old(finished) ==> x in finished
        invariant cycles == [] ==> forall j :: 0 <= j < k ==> deps[j] in finished
      {
        assert (id, deps[k]) in g;
        Walk(deps[k], path + [id]);
      }
      LeavesFinished(byId, state, cycles, finished, path, id);
      state := state[id := Done];
      finished := finished + [id];
    }
  }

  /** Marking an id done after its dependencies keeps the finish order. */
  lemma LeavesFinished(byId: map<string, Invariant>, state: map<string, Mark>, cycles: seq<seq<string>>,
                       finished: seq<string>, path: seq<string>, id: string)
    requires Coloured(Dependencies(byId), state, cycles, finished, path + [id]) && id !in path
    requires cycles == [] ==> forall j :: 0 <= j < |DependsOn(byId, id)| ==> DependsOn(byId, id)[j] in finished
    ensures Coloured(Dependencies(byId), state[id := Done], cycles, finished + [id], path)
  {
    var g, more := Dependencies(byId), finished + [id];
    assert (path + [id])[|path|] == id;
    if cycles == [] {
      forall i, d | 0 <= i < |more| && (more[i], d) in g
        ensures d in more[..i]
      {
        if i < |finished| {
          assert more[..i] == finished[..i];
        } else {
          assert more[..i] == finished;
          assert d in DependsOn(byId, id);
        }
      }
    }
  }

  /** An exact cycle detector: it reports nothing exactly when there is no cycle, and only genuine cycles. */
  method FindCycles(registry: seq<Invariant>) returns (cycles: seq<seq<string>>)
    ensures cycles == [] <==> Digraph.Acyclic(Dependencies(ById(registry)))
    ensures forall c :: c in cycles ==> Genuine(Dependencies(ById(registry)), c)
  {
    ghost var g := Dependencies(ById(registry));
    var search := new CycleSearch(ById(registry));
    for i := 0 to |registry|
      invariant Coloured(g, search.state, search.cycles, search.finished, [])
      invariant search.cycles == [] ==> forall j :: 0 <= j < i ==> registry[j].id in search.finished
    {
      ByIdMember(registry, registry[i].id);
      search.Walk(registry[i].id, []);
    }
    cycles := search.cycles;
    if cycles == [] {
      forall e | e in g ensures e.0 in search.finished {
        ByIdMember(registry, e.0);
      }
      FinishOrderAcyclic(g, search.finished);
    } else {
      assert Genuine(g, cycles[0]);
      assert Digraph.Reaches(g, cycles[0][0], cycles[0][0]);
    }
  }

  // ---------- structural validation ----------

  datatype Problem =
    | DuplicateId | NoObservation | RepeatedObservation | UnknownCategory | UnknownSeverity | ThinRationale
    | NoEvidenceKind | ProtectsNothing | NeverRaised
    | UnknownDependency(id: string) | DependencyCycle(cycle: seq<string>)

  datatype Defect = Defect(invariantId: string, problem: Problem)

  /** What each relational complaint about the k-th declaration means. */
  ghost predicate Suffers(registry: seq<Invariant>, k: nat, p: Problem)
    requires k < |registry|
  {
    var inv := registry[k];
    match p
    case DuplicateId => exists j :: 0 <= j < k && registry[j].id == inv.id
    case NoObservation => inv.observations == []
    case RepeatedObservation =>
      exists i, j :: 0 <= i < j < |inv.observations| && inv.observations[i] == inv.observations[j]
    case UnknownCategory =>
      inv.category !in {"security", "privacy", "ai", "evidence", "governance", "audit", "tenancy", "verification"}
    case UnknownSeverity => inv.severity !in {"critical", "high", "medium"}
    case ThinRationale => |Trim(inv.rationale)| < 40
    case NoEvidenceKind => inv.evidenceKinds == []
    case ProtectsNothing => inv.protects == []
    case NeverRaised =>
      "integration" !in inv.evidenceKinds && "telemetry" !in inv.evidenceKinds && "audit" !in inv.evidenceKinds
    case UnknownDependency(d) => d in inv.dependsOn && forall j :: 0 <= j < |registry| ==> registry[j].id != d
    case DependencyCycle(_) => false
  }

  /** Some declaration with the blamed id has the complaint. */
  ghost predicate Deserved(registry: seq<Invariant>, k: nat, d: Defect)
    requires k <= |registry|
  {
    exists i :: 0 <= i < k && d.invariantId == registry[i].id && Suffers(registry, i, d.problem)
  }

  /** `new Set(xs).size !== xs.length` */
  predicate Repeats(xs: seq<string>) {
    |set x | x in xs| != |xs|
  }

  lemma {:induction false} RepeatsExactly(xs: seq<string>)
    ensures |set x | x in xs| <= |xs|
    ensures Repeats(xs) <==> exists i, j :: 0 <= i < j < |xs| && xs[i] == xs[j]
  {
    if xs != [] {
      var n := |xs| - 1;
      var front, last := xs[..n], xs[n];
      RepeatsExactly(front);
      var fewer := set x | x in front;
      assert xs == front + [last];
      assert (set x | x in xs) == fewer + {last};
      if last in fewer {
        var i :| 0 <= i < n && front[i] == last;
        assert xs[i] == xs[n];
        assert fewer + {last} == fewer;
      } else {
        assert |fewer + {last}| == |fewer| + 1;
        if i, j :| 0 <= i < j < |xs| && xs[i] == xs[j] {
          assert front[i] in fewer;
          assert front[i] == front[j];
        }
        if Repeats(front) {
          var i, j :| 0 <= i < j < |front| && front[i] == front[j];
          assert xs[i] == xs[j];
        }
      }
    }
  }

  function When(c: bool, p: Problem): seq<Problem> {
    if c then [p] else []
  }

  function UnknownDependencies(ids: set<string>, dependsOn: seq<string>): seq<Problem> {
    if dependsOn == [] then [] else
    When(dependsOn[0] !in ids, UnknownDependency(dependsOn[0])) + UnknownDependencies(ids, dependsOn[1..])
  }

  lemma {:induction false} UnknownDependenciesMember(ids: set<string>, dependsOn: seq<string>, p: Problem)
    ensures p in UnknownDependencies(ids, dependsOn) <==> p.UnknownDependency? && p.id in dependsOn && p.id !in ids
  {
    if dependsOn != [] {
      UnknownDependenciesMember(ids, dependsOn[1..], p);
      assert dependsOn == [dependsOn[0]] + dependsOn[1..];
    }
  }

  /** The checks that look at one declaration alone or at the ids before it, in the order they run. */
  const CHECKS: seq<Problem> :=
    [DuplicateId, NoObservation, RepeatedObservation, UnknownCategory, UnknownSeverity, ThinRationale,
     NoEvidenceKind, ProtectsNothing, NeverRaised]

  predicate Applies(seen: set<string>, inv: Invariant, p: Problem) {
    match p
    case DuplicateId => inv.id in seen
    case NoObservation => inv.observations == []
    case RepeatedObservation => Repeats(inv.observations)
    case UnknownCategory => inv.category !in CATEGORIES
    case UnknownSeverity => inv.severity !in SEVERITIES
    case ThinRationale => |Trim(inv.rationale)| < 40
    case NoEvidenceKind => inv.evidenceKinds == []
    case ProtectsNothing => inv.protects == []
    case NeverRaised => forall kind :: kind in inv.evidenceKinds ==> kind !in RAISING
    case UnknownDependency(_) => false
    case DependencyCycle(_) => false
  }

  function Failing(seen: set<string>, inv: Invariant, checks: seq<Problem>): seq<Problem> {
    if checks == [] then [] else When(Applies(seen, inv, checks[0]), checks[0]) + Failing(seen, inv, checks[1..])
  }

  lemma {:induction false} FailingMember(seen: set<string>, inv: Invariant, checks: seq<Problem>, p: Problem)
    ensures p in Failing(seen, inv, checks) <==> p in checks && Applies(seen, inv, p)
  {
    if checks != [] {
      FailingMember(seen, inv, checks[1..], p);
      assert checks == [checks[0]] + checks[1..];
    }
  }

  /** The complaints about one declaration, in the order they are pushed. */
  function Complaints(seen: set<string>, ids: set<string>, inv: Invariant): seq<Problem> {
    Failing(seen, inv, CHECKS) + UnknownDependencies(ids, inv.dependsOn)
  }

  /** The place of a complaint among the checks made of one declaration. */
  function Place(p: Problem): nat {
    match p
    case DuplicateId => 0
    case NoObservation => 1
    case RepeatedObservation => 2
    case UnknownCategory => 3
    case UnknownSeverity => 4
    case ThinRationale => 5
    case NoEvidenceKind => 6
    case ProtectsNothing => 7
    case NeverRaised => 8
    case UnknownDependency(_) => 9
    case DependencyCycle(_) => 10
  }

  ghost predicate Ascending(ps: seq<Problem>, least: nat) {
    && (forall i :: 0 <= i < |ps| ==> least <= Place(ps[i]))
    && (forall i, j :: 0 <= i < j < |ps| ==> Place(ps[i]) < Place(ps[j]) || (Place(ps[i]) == Place(ps[j]) == 9))
  }

  lemma CheckPlaced(k: nat)
    requires k < |CHECKS|
    ensures Place(CHECKS[k]) == k < 9
  {
    assert CHECKS[0] == DuplicateId && CHECKS[1] == NoObservation && CHECKS[2] == RepeatedObservation;
    assert CHECKS[3] == UnknownCategory && CHECKS[4] == UnknownSeverity && CHECKS[5] == ThinRationale;
    assert CHECKS[6] == NoEvidenceKind && CHECKS[7] == ProtectsNothing && CHECKS[8] == NeverRaised;
  }

  ghost predicate Placed(checks: seq<Problem>, k: nat) {
    forall i :: 0 <= i < |checks| ==> Place(checks[i]) == k + i < 9
  }

  lemma {:induction false} FailingAscends(seen: set<string>, inv: Invariant, checks: seq<Problem>, k: nat)
    requires Placed(checks, k)
    ensures Ascending(Failing(seen, inv, checks), k)
    ensures forall p :: p in Failing(seen, inv, checks) ==> Place(p) < 9
  {
    if checks != [] {
      assert Placed(checks[1..], k + 1) by {
        forall i | 0 <= i < |checks[1..]| ensures Place(checks[1..][i]) == k + 1 + i < 9 {
          assert Place(checks[i + 1]) == k + (i + 1);
        }
      }
      FailingAscends(seen, inv, checks[1..], k + 1);
    }
  }

  /** The complaints about one declaration come in the order of the checks, each but an unknown dependency once. */
  lemma ComplaintsAscend(seen: set<string>, ids: set<string>, inv: Invariant)
    ensures Ascending(Complaints(seen, ids, inv), 0)
  {
    var checks := CHECKS;
    forall i | 0 <= i < |checks| ensures Place(checks[i]) == i < 9 { CheckPlaced(i); }
    assert Placed(checks, 0);
    FailingAscends(seen, inv, checks, 0);
    forall p | p in UnknownDependencies(ids, inv.dependsOn) ensures Place(p) == 9 {
      UnknownDependenciesMember(ids, inv.dependsOn, p);
    }
  }

  lemma ComplaintsExact(registry: seq<Invariant>, k: nat, p: Problem)
    requires k < |registry|
    ensures p in Complaints(set j | 0 <= j < k :: registry[j].id, set j | 0 <= j < |registry| :: registry[j].id,
                            registry[k])
       <==> Suffers(registry, k, p)
  {
    var inv := registry[k];
    var seen, ids := set j | 0 <= j < k :: registry[j].id, set j | 0 <= j < |registry| :: registry[j].id;
    UnknownDependenciesMember(ids, inv.dependsOn, p);
    FailingMember(seen, inv, CHECKS, p);
    ChecksMember(p);
    if !p.UnknownDependency? && !p.DependencyCycle? {
      AppliesExact(registry, k, p);
    }
  }

  lemma ChecksMember(p: Problem)
    ensures p in CHECKS <==> !p.UnknownDependency? && !p.DependencyCycle?
  {
    assert CHECKS[0] == DuplicateId && CHECKS[1] == NoObservation && CHECKS[2] == RepeatedObservation;
    assert CHECKS[3] == UnknownCategory && CHECKS[4] == UnknownSeverity && CHECKS[5] == ThinRationale;
    assert CHECKS[6] == NoEvidenceKind && CHECKS[7] == ProtectsNothing && CHECKS[8] == NeverRaised;
  }

  lemma AppliesExact(registry: seq<Invariant>, k: nat, p: Problem)
    requires k < |registry| && !p.UnknownDependency? && !p.DependencyCycle?
    ensures Applies(set j | 0 <= j < k :: registry[j].id, registry[k], p) <==> Suffers(registry, k, p)
  {
    RepeatsExactly(registry[k].observations);
  }

  function Blame(id: string, ps: seq<Problem>): seq<Defect> {
    seq(|ps|, i requires 0 <= i < |ps| => Defect(id, ps[i]))
  }

  lemma BlameMember(id: string, ps: seq<Problem>, d: Defect)
    ensures d in Blame(id, ps) <==> d.invariantId == id && d.problem in ps
  {
    if d.invariantId == id && d.problem in ps {
      var i :| 0 <= i < |ps| && ps[i] == d.problem;
      assert Blame(id, ps)[i] == d;
    }
  }

  /** The complaints about the first `k` declarations, in the order they are pushed. */
  function LocalDefects(registry: seq<Invariant>, k: nat): seq<Defect>
    requires k <= |registry|
  {
    if k == 0 then [] else
    var seen := set j | 0 <= j < k - 1 :: registry[j].id;
    var ids := set j | 0 <= j < |registry| :: registry[j].id;
    LocalDefects(registry, k - 1) + Blame(registry[k - 1].id, Complaints(seen, ids, registry[k - 1]))
  }

  lemma BlamedExactly(registry: seq<Invariant>, k: nat, d: Defect)
    requires k < |registry|
    ensures d in Blame(registry[k].id, Complaints(set j | 0 <= j < k :: registry[j].id,
                                                  set j | 0 <= j < |registry| :: registry[j].id, registry[k]))
       <==> d.invariantId == registry[k].id && Suffers(registry, k, d.problem)
  {
    var seen := set j | 0 <= j < k :: registry[j].id;
    var ids := set j | 0 <= j < |registry| :: registry[j].id;
    BlameMember(registry[k].id, Complaints(seen, ids, registry[k]), d);
    ComplaintsExact(registry, k, d.problem);
  }

  lemma {:induction false} LocalDefectsExact(registry: seq<Invariant>, k: nat, d: Defect)
    requires k <= |registry|
    ensures d in LocalDefects(registry, k) <==> Deserved(registry, k, d)
  {
    if k > 0 {
      LocalDefectsExact(registry, k - 1, d);
      BlamedExactly(registry, k - 1, d);
    }
  }

  function CycleDefects(cycles: seq<seq<string>>): seq<Defect> {
    seq(|cycles|, i requires 0 <= i < |cycles| => CycleDefect(cycles[i]))
  }

  /** What the list of defects says: each declaration's complaints as deserved, and a cycle exactly when there is one.
      */
  ghost predicate Reports(registry: seq<Invariant>, defects: seq<Defect>) {
    && (forall d: Defect :: !d.problem.DependencyCycle? ==> (d in defects <==> Deserved(registry, |registry|, d)))
    && (forall d: Defect :: d in defects && d.problem.DependencyCycle? ==>
          Genuine(Dependencies(ById(registry)), d.problem.cycle) && d.invariantId == d.problem.cycle[0])
    && ((exists d :: d in defects && d.problem.DependencyCycle?) <==> !Digraph.Acyclic(Dependencies(ById(registry))))
  }

  lemma CycleDefectsExact(cycles: seq<seq<string>>, d: Defect)
    ensures d in CycleDefects(cycles) <==> exists i :: 0 <= i < |cycles| && d == CycleDefect(cycles[i])
  {
    if i :| 0 <= i < |cycles| && d == CycleDefect(cycles[i]) { assert CycleDefects(cycles)[i] == d; }
  }

  lemma {:induction false} DefectsReport(registry: seq<Invariant>, cycles: seq<seq<string>>)
    requires cycles == [] <==> Digraph.Acyclic(Dependencies(ById(registry)))
    requires forall i :: 0 <= i < |cycles| ==> Genuine(Dependencies(ById(registry)), cycles[i])
    ensures Reports(registry, LocalDefects(registry, |registry|) + CycleDefects(cycles))
  {
    var local, blamed := LocalDefects(registry, |registry|), CycleDefects(cycles);
    forall d: Defect
      ensures d in local + blamed <==> Deserved(registry, |registry|, d) || d in blamed
      ensures d.problem.DependencyCycle? ==> !Deserved(registry, |registry|, d)
      ensures d in blamed ==> exists i :: 0 <= i < |cycles| && d == CycleDefect(cycles[i])
    {
      LocalDefectsExact(registry, |registry|, d);
      CycleDefectsExact(cycles, d);
    }
    if cycles != [] { CycleDefectsExact(cycles, CycleDefect(cycles[0])); }
  }

  lemma CycleDefectsGrow(cycles: seq<seq<string>>, k: nat)
    requires k < |cycles|
    ensures CycleDefects(cycles[..k + 1]) == CycleDefects(cycles[..k]) + [CycleDefect(cycles[k])]
  {
  }

  /** Nothing is reported that could mislead or trap the evaluator. */
  ghost predicate Spares(defects: seq<Defect>) {
    forall d :: d in defects ==> !d.problem.DuplicateId? && !d.problem.DependencyCycle?
  }

  lemma ReportDecides(registry: seq<Invariant>, defects: seq<Defect>)
    requires Reports(registry, defects)
    ensures Spares(defects) <==> Evaluable(registry)
  {
    DefectsDecide(registry, defects, !Digraph.Acyclic(Dependencies(ById(registry))));
  }

  /** The complaints declaration by declaration, then the cycles: exactly those deserved. */
  method ValidateRegistry(registry: seq<Invariant>) returns (defects: seq<Defect>, ghost cycles: seq<seq<string>>)
    ensures defects == LocalDefects(registry, |registry|) + CycleDefects(cycles)
    ensures forall c :: c in cycles ==> Genuine(Dependencies(ById(registry)), c)
    ensures Reports(registry, defects)
    ensures Spares(defects) <==> Evaluable(registry)
  {
    defects := [];
    var ids := set j | 0 <= j < |registry| :: registry[j].id;
    var seen: set<string> := {};
    for k := 0 to |registry|
      invariant seen == set j | 0 <= j < k :: registry[j].id
      invariant defects == LocalDefects(registry, k)
    {
      var inv := registry[k];
      defects := defects + Blame(inv.id, Complaints(seen, ids, inv));
      seen := seen + {inv.id};
    }
    var found := FindCycles(registry);
    cycles := found;
    ghost var local := defects;
    for k := 0 to |found|
      invariant defects == local + CycleDefects(found[..k])
    {
      CycleDefectsGrow(found, k);
      defects := defects + [CycleDefect(found[k])];
    }
    assert found[..|found|] == found;
    DefectsReport(registry, cycles);
    ReportDecides(registry, defects);
  }

  function CycleDefect(cycle: seq<string>): Defect {
    Defect(if cycle == [] then "?" else cycle[0], DependencyCycle(cycle))
  }

  /** Ids are distinct exactly when nobody deserves a duplicate-id complaint. */
  lemma DistinctExactly(registry: seq<Invariant>)
    ensures DistinctIds(registry) <==> forall id :: !Deserved(registry, |registry|, Defect(id, DuplicateId))
  {
    if j, k :| 0 <= j < k < |registry| && registry[j].id == registry[k].id {
      assert Suffers(registry, k, DuplicateId);
      assert Deserved(registry, |registry|, Defect(registry[k].id, DuplicateId));
    }
    if id :| Deserved(registry, |registry|, Defect(id, DuplicateId)) {
      var k :| 0 <= k < |registry| && id == registry[k].id && Suffers(registry, k, DuplicateId);
      var j :| 0 <= j < k && registry[j].id == registry[k].id;
      assert !DistinctIds(registry);
    }
  }

  lemma DefectsDecide(registry: seq<Invariant>, defects: seq<Defect>, cyclic: bool)
    requires forall id :: Defect(id, DuplicateId) in defects <==>
      Deserved(registry, |registry|, Defect(id, DuplicateId))
    requires (exists d :: d in defects && d.problem.DependencyCycle?) <==> cyclic
    ensures (forall d :: d in defects ==> !d.problem.DuplicateId? && !d.problem.DependencyCycle?) <==>
      DistinctIds(registry) && !cyclic
  {
    DistinctExactly(registry);
    if d :| d in defects && d.problem.DuplicateId? {
      assert d == Defect(d.invariantId, DuplicateId);
    }
  }

  // ---------- evaluation ----------

  datatype Reading = Flag(holds: bool) | Count(n: real) | Text(text: string) | Unmeasurable

  datatype Observation = Observation(value: Reading, how: string)

  datatype Outcome = Outcome(id: string, held: Option<bool>, exists_: bool, how: Option<string>)

  datatype Status = Failed | NoObserver | Unmeasured | Blocked | Unfalsified | Satisfied

  /** What to do next, derived from the outcome. */
  datatype Action =
    | Repair(ids: seq<string>) | Instrument(ids: seq<string>) | Remeasure(ids: seq<string>)
    | HeldBackBy(id: string, status: Status, then_: Action) | BreakOneOf(ids: seq<string>) | Holding

  datatype Evaluation = Evaluation(id: string, status: Status, observations: seq<Outcome>, blockedBy: Option<string>,
                                   nextAction: Action)

  datatype Environment = Environment(registry: seq<Invariant>, observations: map<string, Observation>,
                                     falsified: set<string>)

  /** Worst first. */
  const STATUS_PRECEDENCE: seq<Status> := [Failed, NoObserver, Unmeasured, Blocked, Unfalsified, Satisfied]

  function Held(value: Reading): Option<bool> {
    match value
    case Unmeasurable => None
    case Flag(b) => Some(b)
    case Count(n) => Some(n > 0.0)
    case Text(t) => Some(|Trim(t)| > 0)
  }

  function Observe(env: Environment, id: string): Outcome {
    if id in env.observations
    then Outcome(id, Held(env.observations[id].value), true, Some(env.observations[id].how))
    else Outcome(id, None, false, None)
  }

  function Outcomes(env: Environment, inv: Invariant): seq<Outcome> {
    seq(|inv.observations|, i requires 0 <= i < |inv.observations| => Observe(env, inv.observations[i]))
  }

  /** The ids of the outcomes of one sort, in order. */
  function Select(os: seq<Outcome>, wanted: Outcome -> bool): seq<string> {
    if os == [] then [] else (if wanted(os[0]) then [os[0].id] else []) + Select(os[1..], wanted)
  }

  lemma {:induction false} SelectEmpty(os: seq<Outcome>, wanted: Outcome -> bool)
    ensures Select(os, wanted) == [] <==> forall o :: o in os ==> !wanted(o)
  {
    if os != [] {
      SelectEmpty(os[1..], wanted);
      assert os == [os[0]] + os[1..];
    }
  }

  const MeasuredFalse := (o: Outcome) => o.held == Some(false)
  const Absent := (o: Outcome) => !o.exists_
  const WithoutValue := (o: Outcome) => o.held.None?

  predicate Falsifiable(env: Environment, inv: Invariant) {
    exists id :: id in inv.observations && id in env.falsified
  }

  /** The registered ids an evaluation of `inv` can come to: its dependencies and theirs. */
  ghost function Closure(registry: seq<Invariant>, inv: Invariant): set<string> {
    set x | x in ById(registry) && exists d :: d in inv.dependsOn && d in ById(registry) && Hits(registry, d, x)
  }

  ghost predicate Hits(registry: seq<Invariant>, d: string, x: string) {
    x == d || Digraph.Reaches(Dependencies(ById(registry)), d, x)
  }

  /** Going to a dependency leaves strictly less to evaluate: why the evaluator terminates. */
  lemma ClosureShrinks(registry: seq<Invariant>, inv: Invariant, d: string)
    requires Evaluable(registry) && d in inv.dependsOn && Find(registry, d).Some?
    ensures d in Closure(registry, inv) && Closure(registry, Find(registry, d).value) < Closure(registry, inv)
  {
    LookupsAgree(registry, d);
    var byId := ById(registry);
    var g := Dependencies(byId);
    var dep := byId[d];
    assert Hits(registry, d, d);
    forall x | x in Closure(registry, dep)
      ensures x in Closure(registry, inv) && x != d
    {
      var e :| e in dep.dependsOn && e in byId && Hits(registry, e, x);
      assert (d, e) in g;
      Digraph.EdgeReaches(g, d, e);
      if x != e {
        Digraph.ReachesTrans(g, d, e, x);
      }
      assert Hits(registry, d, x);
    }
  }

  /** The answer given before any dependency is looked at, if the invariant's own observations already settle it. */
  function OwnFailure(env: Environment, inv: Invariant): Option<Evaluation> {
    var observed := Outcomes(env, inv);
    var failing := Select(observed, MeasuredFalse);
    var missing := Select(observed, Absent);
    var unmeasured := Select(observed, WithoutValue);
    if failing != [] then Some(Evaluation(inv.id, Failed, observed, None, Repair(failing)))
    else if missing != [] then Some(Evaluation(inv.id, NoObserver, observed, None, Instrument(missing)))
    else if unmeasured != [] then Some(Evaluation(inv.id, Unmeasured, observed, None, Remeasure(unmeasured)))
    else None
  }

  /** The answer once the dependencies have been looked at: `first` is the first that is not satisfied, if any. */
  function Conclude(env: Environment, inv: Invariant, first: Option<(string, Evaluation)>): Evaluation {
    var observed := Outcomes(env, inv);
    match first
    case Some(d) => Evaluation(inv.id, Blocked, observed, Some(d.0), HeldBackBy(d.0, d.1.status, d.1.nextAction))
    case None =>
      if inv.severity == "critical" && !Falsifiable(env, inv)
      then Evaluation(inv.id, Unfalsified, observed, None, BreakOneOf(inv.observations))
      else Evaluation(inv.id, Satisfied, observed, None, Holding)
  }

  function Evaluate(env: Environment, inv: Invariant): Evaluation
    requires Evaluable(env.registry)
    decreases Closure(env.registry, inv), |inv.dependsOn| + 1
  {
    match OwnFailure(env, inv)
    case Some(answer) => answer
    case None => Conclude(env, inv, FirstUnsatisfied(env, inv, 0))
  }

  /** The first dependency from position `k` on that does not evaluate as satisfied. */
  function FirstUnsatisfied(env: Environment, inv: Invariant, k: nat): Option<(string, Evaluation)>
    requires Evaluable(env.registry) && k <= |inv.dependsOn|
    decreases Closure(env.registry, inv), |inv.dependsOn| - k
  {
    if k == |inv.dependsOn| then None else
    var id := inv.dependsOn[k];
    match Find(env.registry, id)
    case None => FirstUnsatisfied(env, inv, k + 1)
    case Some(dep) =>
      ClosureShrinks(env.registry, inv, id);
      var result := Evaluate(env, dep);
      if result.status != Satisfied then Some((id, result)) else FirstUnsatisfied(env, inv, k + 1)
  }

  function EvaluateAll(env: Environment): seq<Evaluation>
    requires Evaluable(env.registry)
  {
    seq(|env.registry|, i requires 0 <= i < |env.registry| => Evaluate(env, env.registry[i]))
  }

  // ---------- what the statuses mean ----------

  /** A reading that shows the thing holding: true, a positive count, a text that is not all spaces. */
  predicate Shown(v: Reading) {
    match v
    case Flag(b) => b
    case Count(n) => n > 0.0
    case Text(t) => exists i :: 0 <= i < |t| && !IsSpace(t[i])
    case Unmeasurable => false
  }

  /** A reading that shows it not holding: one that measured something and does not show it holding. */
  predicate Refuted(v: Reading) {
    !v.Unmeasurable? && !Shown(v)
  }

  /** What is made of one observation: whether there is one, what it shows, and how it was measured. */
  lemma ObserveExactly(env: Environment, id: string)
    ensures var o := Observe(env, id);
      && o.id == id && (o.exists_ <==> id in env.observations)
      && (o.held == Some(true) <==> id in env.observations && Shown(env.observations[id].value))
      && (o.held == Some(false) <==> id in env.observations && Refuted(env.observations[id].value))
      && (o.held.None? <==> id in env.observations ==> env.observations[id].value.Unmeasurable?)
      && (if o.exists_ then o.how == Some(env.observations[id].how) else o.how.None?)
  {
    if id in env.observations { HeldExactly(env.observations[id].value); }
  }

  lemma HeldExactly(v: Reading)
    ensures Held(v) == if Shown(v) then Some(true) else if Refuted(v) then Some(false) else None
  {
    if v.Text? { var i, j := TrimExactly(v.text); }
  }

  predicate AllHeld(env: Environment, inv: Invariant) {
    forall id :: id in inv.observations ==> id in env.observations && Shown(env.observations[id].value)
  }

  /** An invariant's own share of being satisfied: all observations held and, if critical, one seen to fail. */
  predicate Demonstrated(env: Environment, inv: Invariant) {
    && AllHeld(env, inv)
    && (inv.severity == "critical" ==> exists id :: id in inv.observations && id in env.falsified)
  }

  lemma OutcomesMember(env: Environment, inv: Invariant, o: Outcome)
    ensures o in Outcomes(env, inv) <==> o.id in inv.observations && o == Observe(env, o.id)
  {
    if o.id in inv.observations && o == Observe(env, o.id) {
      var i :| 0 <= i < |inv.observations| && inv.observations[i] == o.id;
      assert Outcomes(env, inv)[i] == o;
    }
  }

  ghost predicate SomeFailed(env: Environment, inv: Invariant) {
    exists id :: id in inv.observations && id in env.observations && Refuted(env.observations[id].value)
  }

  ghost predicate SomeAbsent(env: Environment, inv: Invariant) {
    exists id :: id in inv.observations && id !in env.observations
  }

  ghost predicate SomeUnmeasured(env: Environment, inv: Invariant) {
    exists id :: id in inv.observations && (id !in env.observations || env.observations[id].value.Unmeasurable?)
  }

  /** The three kinds of not holding are told apart by the observations alone, a measured failure first. */
  lemma OwnState(env: Environment, inv: Invariant)
    ensures var own := OwnFailure(env, inv);
      && (own.Some? && own.value.status.Failed? <==> SomeFailed(env, inv))
      && (own.Some? && own.value.status.NoObserver? <==> !SomeFailed(env, inv) && SomeAbsent(env, inv))
      && (own.Some? && own.value.status.Unmeasured? <==>
            !SomeFailed(env, inv) && !SomeAbsent(env, inv) && SomeUnmeasured(env, inv))
      && (own.None? <==> AllHeld(env, inv))
      && (own.Some? ==> own.value.status in {Failed, NoObserver, Unmeasured})
  {
    var os := Outcomes(env, inv);
    SelectEmpty(os, MeasuredFalse);
    SelectEmpty(os, Absent);
    SelectEmpty(os, WithoutValue);
    forall id | id in inv.observations
      ensures Observe(env, id) in os
    {
      OutcomesMember(env, inv, Observe(env, id));
      ObserveExactly(env, id);
    }
    forall o | o in os
      ensures o.id in inv.observations && o == Observe(env, o.id)
      ensures o.held == Some(false) <==> o.id in env.observations && Refuted(env.observations[o.id].value)
    {
      OutcomesMember(env, inv, o);
      ObserveExactly(env, o.id);
    }
  }

  lemma {:induction false} FirstUnsatisfiedExact(env: Environment, inv: Invariant, k: nat)
    requires Evaluable(env.registry) && k <= |inv.dependsOn|
    ensures FirstUnsatisfied(env, inv, k).None? <==>
              forall j :: k <= j < |inv.dependsOn| && Find(env.registry, inv.dependsOn[j]).Some?
                ==> Evaluate(env, Find(env.registry, inv.dependsOn[j]).value).status.Satisfied?
    ensures FirstUnsatisfied(env, inv, k).Some? ==>
              && FirstUnsatisfied(env, inv, k).value.0 in inv.dependsOn
              && Find(env.registry, FirstUnsatisfied(env, inv, k).value.0).Some?
              && FirstUnsatisfied(env, inv, k).value.1
                 == Evaluate(env, Find(env.registry, FirstUnsatisfied(env, inv, k).value.0).value)
              && !FirstUnsatisfied(env, inv, k).value.1.status.Satisfied?
    decreases |inv.dependsOn| - k
  {
    if k < |inv.dependsOn| {
      FirstUnsatisfiedExact(env, inv, k + 1);
    }
  }

  /** The closure is the dependencies together with their closures. */
  lemma ClosureUnfolds(registry: seq<Invariant>, inv: Invariant, x: string)
    requires Evaluable(registry)
    ensures x in Closure(registry, inv) <==>
              exists j :: 0 <= j < |inv.dependsOn| && Find(registry, inv.dependsOn[j]).Some?
                && (x == inv.dependsOn[j] || x in Closure(registry, Find(registry, inv.dependsOn[j]).value))
  {
    var byId := ById(registry);
    var g := Dependencies(byId);
    if x in Closure(registry, inv) {
      var d :| d in inv.dependsOn && d in byId && Hits(registry, d, x);
      LookupsAgree(registry, d);
      var j :| 0 <= j < |inv.dependsOn| && inv.dependsOn[j] == d;
      if x != d {
        var e := Digraph.FirstStep(g, d, x);
        if e !in byId {
          assert x == e by { if x != e { var f := Digraph.FirstStep(g, e, x); } }
        }
        assert Hits(registry, e, x);
        assert e in byId[d].dependsOn;
        assert x in Closure(registry, byId[d]);
      }
    }
    forall j | 0 <= j < |inv.dependsOn| && Find(registry, inv.dependsOn[j]).Some?
                && (x == inv.dependsOn[j] || x in Closure(registry, Find(registry, inv.dependsOn[j]).value))
      ensures x in Closure(registry, inv)
    {
      ClosureShrinks(registry, inv, inv.dependsOn[j]);
    }
  }

  ghost predicate ClosureDemonstrated(env: Environment, inv: Invariant) {
    forall x :: x in Closure(env.registry, inv) ==> Demonstrated(env, ById(env.registry)[x])
  }

  /** An invariant is satisfied exactly when it and everything in its dependency closure is demonstrated. */
  lemma {:induction false} SatisfiedExactly(env: Environment, inv: Invariant)
    requires Evaluable(env.registry)
    ensures Evaluate(env, inv).status.Satisfied? <==> Demonstrated(env, inv) && ClosureDemonstrated(env, inv)
    decreases Closure(env.registry, inv)
  {
    var registry, deps := env.registry, inv.dependsOn;
    OwnState(env, inv);
    FirstUnsatisfiedExact(env, inv, 0);
    if FirstUnsatisfied(env, inv, 0).None? {
      forall x | x in Closure(registry, inv)
        ensures Demonstrated(env, ById(registry)[x])
      {
        ClosureUnfolds(registry, inv, x);
        var j :| 0 <= j < |deps| && Find(registry, deps[j]).Some?
          && (x == deps[j] || x in Closure(registry, Find(registry, deps[j]).value));
        LookupsAgree(registry, deps[j]);
        ClosureShrinks(registry, inv, deps[j]);
        SatisfiedExactly(env, Find(registry, deps[j]).value);
      }
    } else {
      var id := FirstUnsatisfied(env, inv, 0).value.0;
      LookupsAgree(registry, id);
      ClosureShrinks(registry, inv, id);
      SatisfiedExactly(env, Find(registry, id).value);
    }
  }

  /** Whether a status describes the invariant, taken by itself. */
  ghost predicate Describes(env: Environment, inv: Invariant, status: Status)
    requires Evaluable(env.registry)
  {
    match status
    case Failed => SomeFailed(env, inv)
    case NoObserver => SomeAbsent(env, inv)
    case Unmeasured => SomeUnmeasured(env, inv)
    case Blocked => exists d :: d in inv.dependsOn && HeldBack(env, d)
    case Unfalsified => inv.severity == "critical" && forall id :: id in inv.observations ==> id !in env.falsified
    case Satisfied => true
  }

  predicate HeldBack(env: Environment, d: string)
    requires Evaluable(env.registry)
  {
    Find(env.registry, d).Some? && Evaluate(env, Find(env.registry, d).value).status != Satisfied
  }

  /** The place of a status in the declared precedence. */
  function Rank(status: Status): (i: nat)
    ensures i < |STATUS_PRECEDENCE| && STATUS_PRECEDENCE[i] == status
  {
    match status
    case Failed => 0
    case NoObserver => 1
    case Unmeasured => 2
    case Blocked => 3
    case Unfalsified => 4
    case Satisfied => 5
  }

  /** The status reported is the worst, in the declared precedence, of those that describe the invariant. */
  lemma PrecedenceFollowed(env: Environment, inv: Invariant)
    requires Evaluable(env.registry)
    ensures Describes(env, inv, Evaluate(env, inv).status)
    ensures forall worse: Status :: Rank(worse) < Rank(Evaluate(env, inv).status) ==> !Describes(env, inv, worse)
  {
    OwnState(env, inv);
    BlockedByHeldBack(env, inv);
  }

  lemma BlockedByHeldBack(env: Environment, inv: Invariant)
    requires Evaluable(env.registry)
    ensures FirstUnsatisfied(env, inv, 0).Some? <==> exists d :: d in inv.dependsOn && HeldBack(env, d)
  {
    FirstUnsatisfiedExact(env, inv, 0);
    if FirstUnsatisfied(env, inv, 0).Some? {
      assert HeldBack(env, FirstUnsatisfied(env, inv, 0).value.0);
    }
  }

  /** The `j`-th dependency is the first, from the `k`-th on, that is registered and not satisfied. */
  ghost predicate FirstHeldBack(env: Environment, inv: Invariant, k: nat, j: int)
    requires Evaluable(env.registry)
  {
    && k <= j < |inv.dependsOn| && HeldBack(env, inv.dependsOn[j])
    && forall i :: k <= i < j ==> !HeldBack(env, inv.dependsOn[i])
  }

  lemma {:induction false} FirstUnsatisfiedFirst(env: Environment, inv: Invariant, k: nat)
    requires Evaluable(env.registry) && k <= |inv.dependsOn| && FirstUnsatisfied(env, inv, k).Some?
    ensures exists j :: FirstHeldBack(env, inv, k, j) && inv.dependsOn[j] == FirstUnsatisfied(env, inv, k).value.0
    decreases |inv.dependsOn| - k
  {
    if HeldBack(env, inv.dependsOn[k]) {
      assert FirstHeldBack(env, inv, k, k);
    } else {
      FirstUnsatisfiedFirst(env, inv, k + 1);
      var j :| FirstHeldBack(env, inv, k + 1, j) && inv.dependsOn[j] == FirstUnsatisfied(env, inv, k + 1).value.0;
      assert FirstHeldBack(env, inv, k, j);
    }
  }

  lemma {:induction false} SelectMember(os: seq<Outcome>, wanted: Outcome -> bool, id: string)
    ensures id in Select(os, wanted) <==> exists o :: o in os && wanted(o) && o.id == id
  {
    if os != [] {
      SelectMember(os[1..], wanted, id);
      assert os == [os[0]] + os[1..];
    }
  }

  /** The action names exactly the invariant's observations that the status is about, or hands on the first dependency
      that is not satisfied with that one's own status and action. */
  ghost predicate Advises(env: Environment, inv: Invariant, r: Evaluation)
    requires Evaluable(env.registry)
  {
    match r.status
    case Failed => r.nextAction.Repair? && forall id :: id in r.nextAction.ids <==>
      id in inv.observations && id in env.observations && Refuted(env.observations[id].value)
    case NoObserver => r.nextAction.Instrument? && forall id :: id in r.nextAction.ids <==>
      id in inv.observations && id !in env.observations
    case Unmeasured => r.nextAction.Remeasure? && forall id :: id in r.nextAction.ids <==>
      id in inv.observations && id in env.observations && env.observations[id].value.Unmeasurable?
    case Blocked => exists j :: FirstHeldBack(env, inv, 0, j) && HandsOn(env, r, inv.dependsOn[j])
    case Unfalsified => r.nextAction == BreakOneOf(inv.observations)
    case Satisfied => r.nextAction == Holding
  }

  predicate HandsOn(env: Environment, r: Evaluation, id: string)
    requires Evaluable(env.registry)
  {
    HeldBack(env, id) && r.blockedBy == Some(id) &&
    var dependency := Evaluate(env, Find(env.registry, id).value);
    r.nextAction == HeldBackBy(id, dependency.status, dependency.nextAction)
  }

  lemma Chosen(env: Environment, inv: Invariant, wanted: Outcome -> bool, id: string)
    ensures id in Select(Outcomes(env, inv), wanted) <==> id in inv.observations && wanted(Observe(env, id))
  {
    SelectMember(Outcomes(env, inv), wanted, id);
    OutcomesMember(env, inv, Observe(env, id));
    forall o | o in Outcomes(env, inv) ensures o.id in inv.observations && o == Observe(env, o.id) {
      OutcomesMember(env, inv, o);
    }
  }

  lemma OwnAdvice(env: Environment, inv: Invariant)
    requires Evaluable(env.registry) && OwnFailure(env, inv).Some?
    ensures Advises(env, inv, OwnFailure(env, inv).value)
  {
    OwnState(env, inv);
    var os := Outcomes(env, inv);
    forall id
      ensures id in Select(os, MeasuredFalse) <==>
        id in inv.observations && id in env.observations && Refuted(env.observations[id].value)
      ensures id in Select(os, Absent) <==> id in inv.observations && id !in env.observations
      ensures id in Select(os, WithoutValue) <==>
        id in inv.observations && (id in env.observations ==> env.observations[id].value.Unmeasurable?)
    {
      Chosen(env, inv, MeasuredFalse, id);
      Chosen(env, inv, Absent, id);
      Chosen(env, inv, WithoutValue, id);
      ObserveExactly(env, id);
    }
  }

  /** What an answer says beside its status: whose it is, what was made of each observation, what it waits for, and what
      to do next. */
  lemma AnswerExactly(env: Environment, inv: Invariant)
    requires Evaluable(env.registry)
    ensures var r := Evaluate(env, inv);
      && r.id == inv.id && |r.observations| == |inv.observations|
      && (forall i :: 0 <= i < |inv.observations| ==> r.observations[i] == Observe(env, inv.observations[i]))
      && (r.blockedBy.Some? <==> r.status.Blocked?) && Advises(env, inv, r)
  {
    OwnState(env, inv);
    if OwnFailure(env, inv).Some? {
      OwnAdvice(env, inv);
    } else if FirstUnsatisfied(env, inv, 0).Some? {
      FirstUnsatisfiedExact(env, inv, 0);
      FirstUnsatisfiedFirst(env, inv, 0);
    }
  }

  /** A whole registry reports satisfied throughout exactly when every invariant in it is demonstrated. */
  lemma AllSatisfied(env: Environment)
    requires Evaluable(env.registry)
    ensures (forall i :: 0 <= i < |env.registry| ==> EvaluateAll(env)[i].status == Satisfied)
       <==> forall inv :: inv in env.registry ==> Demonstrated(env, inv)
  {
    forall i | 0 <= i < |env.registry|
      ensures EvaluateAll(env)[i].status == Satisfied <==>
        Demonstrated(env, env.registry[i]) && ClosureDemonstrated(env, env.registry[i])
    {
      SatisfiedExactly(env, env.registry[i]);
    }
    forall x | x in ById(env.registry)
      ensures ById(env.registry)[x] in env.registry
    {
      ByIdMember(env.registry, x);
    }
  }

  /** Following `blockedBy` to the end. */
  function RootCause(env: Environment, inv: Invariant): Invariant
    requires Evaluable(env.registry)
    decreases Closure(env.registry, inv)
  {
    var r := Evaluate(env, inv);
    if r.status.Blocked? then
      FirstUnsatisfiedExact(env, inv, 0);
      ClosureShrinks(env.registry, inv, r.blockedBy.value);
      RootCause(env, Find(env.registry, r.blockedBy.value).value)
    else inv
  }

  function LastAction(a: Action): Action {
    match a
    case HeldBackBy(_, _, then_) => LastAction(then_)
    case _ => a
  }

  /** Every blocked invariant names, through a finite chain, one invariant in its closure that is itself neither
      blocked nor satisfied, and the action it reports ends in that one's own action. */
  lemma {:induction false} BlockedHasRoot(env: Environment, inv: Invariant)
    requires Evaluable(env.registry) && !Evaluate(env, inv).status.Satisfied?
    ensures Evaluate(env, RootCause(env, inv)).status in {Failed, NoObserver, Unmeasured, Unfalsified}
    ensures Evaluate(env, inv).status.Blocked? ==>
              RootCause(env, inv).id in Closure(env.registry, inv) && RootCause(env, inv) in env.registry
    ensures LastAction(Evaluate(env, inv).nextAction) == Evaluate(env, RootCause(env, inv)).nextAction
    decreases Closure(env.registry, inv)
  {
    var r := Evaluate(env, inv);
    if r.status.Blocked? {
      FirstUnsatisfiedExact(env, inv, 0);
      var id := r.blockedBy.value;
      var dep := Find(env.registry, id).value;
      FindMember(env.registry, id);
      ClosureShrinks(env.registry, inv, id);
      BlockedHasRoot(env, dep);
    }
  }
}
