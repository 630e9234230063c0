/** Dependency writes as concurrent transactions (packages/repositories/src/task.ts, `addTaskDependency` and
    `removeTaskDependency`). Each takes an advisory lock on its case, reads the committed tables, and commits later; in
    between, transactions on this and other cases take their own steps, and every other call goes on as it likes. */
module DependencyLock {
  import opened Prelude
  import opened CaseTables
  import CaseRuns
  import Digraph
  import Tasks

  /** Where a transaction stands: the reads that found no cycle are remembered until the commit. */
  datatype Phase =
    | Idle | Holding(actor: Actor, caseId: Id) | Checked(actor: Actor, caseId: Id, task: Id, dependsOn: Id)

  datatype State = State(tables: Tables, lock: map<Id, nat>, phases: map<nat, Phase>)

  /** `Call` is any review or task call other than the two dependency writes, taken in one step. */
  datatype Event =
    | Call(op: CaseRuns.Operation)
    | Acquire(tx: nat, actor: Actor, caseId: Id)
    | Check(tx: nat, task: Id, dependsOn: Id)
    | CommitAdd(tx: nat)
    | CommitRemove(tx: nat, task: Id, dependsOn: Id)
    | Abort(tx: nat)

  function PhaseOf(s: State, tx: nat): Phase {
    if tx in s.phases then s.phases[tx] else Idle
  }

  /** The call a transaction about to commit an add amounts to. */
  function Add(q: Phase): Tasks.Operation
    requires q.Checked?
  {
    Tasks.AddDependency(q.actor, q.caseId, q.task, q.dependsOn)
  }

  function Remove(q: Phase, task: Id, dependsOn: Id): Tasks.Operation
    requires q.Holding?
  {
    Tasks.RemoveDependency(q.actor, q.caseId, task, dependsOn)
  }

  /** `locking` is off only in the lemma that shows what the lock is for. What a transaction reads between taking the
      lock and committing is read in `Check`; the commit itself looks at nothing. */
  ghost predicate Enabled(s: State, ev: Event, locking: bool) {
    match ev
    case Call(op) => !(op.OnTask? && (op.task.AddDependency? || op.task.RemoveDependency?))
    case Acquire(tx, actor, c) => MayWrite(actor) && PhaseOf(s, tx) == Idle && (locking ==> c !in s.lock)
    case Check(tx, task, dep) =>
      var q := PhaseOf(s, tx);
      q.Holding? && Tasks.Enabled(s.tables, Tasks.AddDependency(q.actor, q.caseId, task, dep))
    case CommitAdd(tx) => PhaseOf(s, tx).Checked?
    case CommitRemove(tx, task, dep) =>
      PhaseOf(s, tx).Holding? && Tasks.Enabled(s.tables, Remove(PhaseOf(s, tx), task, dep))
    case Abort(tx) => PhaseOf(s, tx) != Idle
  }

  /** Ending a transaction releases its lock. */
  function Released(s: State, tx: nat): State
    requires PhaseOf(s, tx) != Idle
  {
    s.(lock := s.lock - {PhaseOf(s, tx).caseId}, phases := s.phases[tx := Idle])
  }

  function WithEdges(s: State, edges: set<(Id, Id)>): State {
    s.(tables := s.tables.(dependencies := edges))
  }

  ghost function Effect(s: State, ev: Event, locking: bool): State
    requires Enabled(s, ev, locking)
  {
    match ev
    case Call(op) => s.(tables := CaseRuns.Step(s.tables, op))
    case Acquire(tx, actor, c) => s.(lock := s.lock[c := tx], phases := s.phases[tx := Holding(actor, c)])
    case Check(tx, task, dep) =>
      s.(phases := s.phases[tx := Checked(PhaseOf(s, tx).actor, PhaseOf(s, tx).caseId, task, dep)])
    case CommitAdd(tx) =>
      WithEdges(Released(s, tx), s.tables.dependencies + {(PhaseOf(s, tx).task, PhaseOf(s, tx).dependsOn)})
    case CommitRemove(tx, task, dep) => WithEdges(Released(s, tx), s.tables.dependencies - {(task, dep)})
    case Abort(tx) => Released(s, tx)
  }

  ghost function Step(s: State, ev: Event, locking: bool): State {
    if Enabled(s, ev, locking) then Effect(s, ev, locking) else s
  }

  ghost function Run(s: State, evs: seq<Event>, locking: bool): State {
    if evs == [] then s else Step(Run(s, evs[..|evs| - 1], locking), evs[|evs| - 1], locking)
  }

  // ---------- what every interleaving keeps ----------

  /** A transaction under way may write and holds its case's lock, and what it read still holds. */
  ghost predicate TxSound(s: State, tx: nat) {
    match PhaseOf(s, tx)
    case Idle => true
    case Holding(actor, c) => MayWrite(actor) && c in s.lock && s.lock[c] == tx
    case Checked(_, c, _, _) => c in s.lock && s.lock[c] == tx && Tasks.Enabled(s.tables, Add(PhaseOf(s, tx)))
  }

  ghost predicate Inv(s: State) {
    CaseRuns.Inv(s.tables) && forall tx {:trigger TxSound(s, tx)} :: TxSound(s, tx)
  }

  /** A walk never leaves its case. */
  lemma {:induction false} WalkInCase(t: Tables, p: seq<Id>)
    requires Tasks.Inv(t) && |p| >= 2 && Digraph.IsWalk(t.dependencies, p)
    ensures Tasks.EdgeInCase(t, (p[0], p[|p| - 1]))
  {
    assert (p[0], p[1]) in t.dependencies;
    assert Tasks.EdgeInCase(t, (p[0], p[1]));
    if |p| > 2 {
      WalkInCase(t, p[1..]);
    }
  }

  lemma ReachesInCase(t: Tables, a: Id, b: Id)
    requires Tasks.Inv(t) && Digraph.Reaches(t.dependencies, a, b)
    ensures Tasks.EdgeInCase(t, (a, b))
  {
    var p :| Digraph.Joins(t.dependencies, p, a, b);
    WalkInCase(t, p);
  }

  /** An edge committed in one case leaves what was read in another true. */
  lemma OtherCaseUnaffected(t: Tables, a: Id, b: Id, op: Tasks.Operation)
    requires Tasks.Inv(t) && Tasks.EdgeInCase(t, (a, b)) && op.AddDependency? && Tasks.Enabled(t, op)
    requires t.tasks[a].caseId != op.caseId
    ensures Tasks.Enabled(t.(dependencies := t.dependencies + {(a, b)}), op)
  {
    var more := t.dependencies + {(a, b)};
    if Digraph.Reaches(more, op.dependsOn, op.id) {
      var p :| Digraph.Joins(more, p, op.dependsOn, op.id);
      Digraph.WalkWithEdge(t.dependencies, a, b, p);
      assert op.dependsOn == a || Digraph.Reaches(t.dependencies, op.dependsOn, a);
      if op.dependsOn != a {
        ReachesInCase(t, op.dependsOn, a);
      }
    }
  }

  /** Fewer edges leave it true as well, and so does whatever keeps the edges and the tasks' cases. */
  lemma StillAddable(t: Tables, after: Tables, op: Tasks.Operation)
    requires op.AddDependency? && Tasks.Enabled(t, op) && after.dependencies <= t.dependencies
    requires forall id :: id in t.tasks ==> id in after.tasks && after.tasks[id].caseId == t.tasks[id].caseId
    ensures Tasks.Enabled(after, op)
  {
    if Digraph.Reaches(after.dependencies, op.dependsOn, op.id) {
      Digraph.ReachesMonotone(after.dependencies, t.dependencies, op.dependsOn, op.id);
    }
  }

  /** A commit does what the call, done in one indivisible step, would do at that moment. */
  lemma CommitIsAtomicAdd(s: State, tx: nat)
    requires Inv(s) && Enabled(s, CommitAdd(tx), true)
    ensures Tasks.Enabled(s.tables, Add(PhaseOf(s, tx)))
    ensures Effect(s, CommitAdd(tx), true).tables == Tasks.Step(s.tables, Add(PhaseOf(s, tx)))
  {
    assert TxSound(s, tx);
  }

  lemma CommitAddKeeps(s: State, tx: nat)
    requires Inv(s) && PhaseOf(s, tx).Checked?
    ensures Inv(Effect(s, CommitAdd(tx), true))
  {
    var after, q := Effect(s, CommitAdd(tx), true), PhaseOf(s, tx);
    CommitIsAtomicAdd(s, tx);
    assert TxSound(s, tx);
    CaseRuns.StepKeeps(s.tables, CaseRuns.OnTask(Add(q)));
    forall other
      ensures TxSound(after, other)
    {
      assert TxSound(s, other);
      if other != tx && PhaseOf(s, other).Checked? {
        OtherCaseUnaffected(s.tables, q.task, q.dependsOn, Add(PhaseOf(s, other)));
      }
    }
  }

  lemma CommitRemoveKeeps(s: State, tx: nat, task: Id, dep: Id)
    requires Inv(s) && Enabled(s, CommitRemove(tx, task, dep), true)
    ensures Inv(Effect(s, CommitRemove(tx, task, dep), true))
  {
    var after := Effect(s, CommitRemove(tx, task, dep), true);
    CaseRuns.StepKeeps(s.tables, CaseRuns.OnTask(Remove(PhaseOf(s, tx), task, dep)));
    assert TxSound(s, tx);
    forall other
      ensures TxSound(after, other)
    {
      assert TxSound(s, other);
      if other != tx && PhaseOf(s, other).Checked? {
        StillAddable(s.tables, after.tables, Add(PhaseOf(s, other)));
      }
    }
  }

  lemma CallKeeps(s: State, op: CaseRuns.Operation)
    requires Inv(s) && Enabled(s, Call(op), true)
    ensures Inv(Effect(s, Call(op), true))
  {
    var after := Effect(s, Call(op), true);
    CaseRuns.StepKeeps(s.tables, op);
    forall tx
      ensures TxSound(after, tx)
    {
      assert TxSound(s, tx);
      if PhaseOf(s, tx).Checked? {
        CallKeepsTasks(s.tables, op);
        StillAddable(s.tables, after.tables, Add(PhaseOf(s, tx)));
      }
    }
  }

  lemma CallKeepsTasks(t: Tables, op: CaseRuns.Operation)
    requires CaseRuns.Inv(t) && !(op.OnTask? && (op.task.AddDependency? || op.task.RemoveDependency?))
    ensures CaseRuns.Step(t, op).dependencies == t.dependencies
    ensures forall id :: id in t.tasks ==>
      id in CaseRuns.Step(t, op).tasks && CaseRuns.Step(t, op).tasks[id].caseId == t.tasks[id].caseId
  {
    CaseRuns.StepKeeps(t, op);
  }

  lemma QuietStepKeeps(s: State, ev: Event)
    requires Inv(s) && Enabled(s, ev, true) && (ev.Acquire? || ev.Check? || ev.Abort?)
    ensures Inv(Effect(s, ev, true))
  {
    var after := Effect(s, ev, true);
    assert TxSound(s, ev.tx);
    forall other
      ensures TxSound(after, other)
    {
      assert TxSound(s, other);
    }
  }

  // ---------- every interleaving is a run of whole calls ----------

  /** The call an event stands for: itself, or the write a transaction commits. */
  ghost function AsCall(s: State, ev: Event): seq<CaseRuns.Operation> {
    if !Enabled(s, ev, true) then [] else
    match ev
    case Call(op) => [op]
    case CommitAdd(tx) => [CaseRuns.OnTask(Add(PhaseOf(s, tx)))]
    case CommitRemove(tx, task, dep) => [CaseRuns.OnTask(Remove(PhaseOf(s, tx), task, dep))]
    case _ => []
  }

  /** The calls of an interleaving, in the order they were committed. */
  ghost function Committed(s: State, evs: seq<Event>): seq<CaseRuns.Operation> {
    if evs == [] then [] else
    Committed(s, evs[..|evs| - 1]) + AsCall(Run(s, evs[..|evs| - 1], true), evs[|evs| - 1])
  }

  lemma StepIsCall(s: State, ev: Event)
    requires Inv(s)
    ensures Inv(Step(s, ev, true)) && Step(s, ev, true).tables == CaseRuns.Run(s.tables, AsCall(s, ev))
  {
    if Enabled(s, ev, true) {
      match ev {
        case Call(op) =>
          CallKeeps(s, op);
          RunOne(s.tables, op);
        case CommitAdd(tx) =>
          CommitAddKeeps(s, tx);
          CommitIsAtomicAdd(s, tx);
          RunOne(s.tables, CaseRuns.OnTask(Add(PhaseOf(s, tx))));
        case CommitRemove(tx, task, dep) =>
          CommitRemoveKeeps(s, tx, task, dep);
          RunOne(s.tables, CaseRuns.OnTask(Remove(PhaseOf(s, tx), task, dep)));
        case _ => QuietStepKeeps(s, ev);
      }
    }
  }

  lemma RunOne(t: Tables, op: CaseRuns.Operation)
    ensures CaseRuns.Run(t, [op]) == CaseRuns.Step(t, op)
  {
    assert [op][..0] == [];
  }

  lemma {:induction false} RunAppend(t: Tables, a: seq<CaseRuns.Operation>, b: seq<CaseRuns.Operation>)
    ensures CaseRuns.Run(t, a + b) == CaseRuns.Run(CaseRuns.Run(t, a), b)
  {
    if b == [] {
      assert a + b == a;
    } else {
      var n := |b| - 1;
      assert (a + b)[..|a| + n] == a + b[..n];
      RunAppend(t, a, b[..n]);
    }
  }

  /** However transactions on any number of cases interleave with each other and with other calls, the tables are those
      that the committed calls leave when made one after the other: so what holds of every such run holds here. */
  lemma {:induction false} Serialisable(s: State, evs: seq<Event>)
    requires Inv(s)
    ensures Inv(Run(s, evs, true))
    ensures Run(s, evs, true).tables == CaseRuns.Run(s.tables, Committed(s, evs))
  {
    if evs != [] {
      var front, ev := Run(s, evs[..|evs| - 1], true), evs[|evs| - 1];
      Serialisable(s, evs[..|evs| - 1]);
      StepIsCall(front, ev);
      RunAppend(s.tables, Committed(s, evs[..|evs| - 1]), AsCall(front, ev));
    }
  }

  /** In particular no interleaving deadlocks a case, although each transaction locks only its own. */
  lemma NeverDeadlocked(evs: seq<Event>, caseId: Id, some: Id) returns (ready: Id)
    requires var t := Run(State(EMPTY, map[], map[]), evs, true).tables;
      Tasks.InCase(t, some, caseId) && t.tasks[some].status in Tasks.ACTIVE
    ensures var t := Run(State(EMPTY, map[], map[]), evs, true).tables;
      && Digraph.Acyclic(t.dependencies) && Tasks.InCase(t, ready, caseId)
      && t.tasks[ready].status !in {Completed, Cancelled}
      && forall p :: (ready, p) in t.dependencies ==> p in t.tasks && t.tasks[p].status in {Completed, Cancelled}
  {
    CaseRuns.EmptyInv();
    var start := State(EMPTY, map[], map[]);
    assert Inv(start);
    Serialisable(start, evs);
    ready := Tasks.NeverDeadlocked(Run(start, evs, true).tables, caseId, some);
  }

  // ---------- nobody waits for a transaction that is over ----------

  /** A case is locked only by a transaction under way on that case. */
  ghost predicate HeldLive(s: State) {
    forall c :: c in s.lock ==> PhaseOf(s, s.lock[c]) != Idle && PhaseOf(s, s.lock[c]).caseId == c
  }

  lemma {:induction false} HeldLiveKept(s: State, evs: seq<Event>)
    requires Inv(s) && HeldLive(s)
    ensures HeldLive(Run(s, evs, true))
  {
    if evs != [] {
      var front, ev := Run(s, evs[..|evs| - 1], true), evs[|evs| - 1];
      Serialisable(s, evs[..|evs| - 1]);
      HeldLiveKept(s, evs[..|evs| - 1]);
      if !ev.Call? { assert TxSound(front, ev.tx); }
    }
  }

  /** However an interleaving has gone, a transaction that has not begun can have any case at once, or as soon as the
      one that holds it ends, which it can do in its next step. */
  lemma LockComesFree(evs: seq<Event>, tx: nat, actor: Actor, c: Id)
    requires PhaseOf(Run(State(EMPTY, map[], map[]), evs, true), tx) == Idle && MayWrite(actor)
    ensures var s := Run(State(EMPTY, map[], map[]), evs, true);
      var freed := if c in s.lock then Step(s, Abort(s.lock[c]), true) else s;
      Enabled(freed, Acquire(tx, actor, c), true)
  {
    CaseRuns.EmptyInv();
    var start := State(EMPTY, map[], map[]);
    assert Inv(start);
    HeldLiveKept(start, evs);
  }

  // ---------- what the lock is for ----------

  /** Two adds that both read before either commits. */
  function Race(actor: Actor, c: Id, a: Id, b: Id): seq<Event> {
    [Acquire(1, actor, c), Acquire(2, actor, c), Check(1, a, b), Check(2, b, a), CommitAdd(1), CommitAdd(2)]
  }

  lemma RunNext(s: State, evs: seq<Event>, k: nat)
    requires k < |evs|
    ensures Run(s, evs[..k + 1], false) == Step(Run(s, evs[..k], false), evs[k], false)
    ensures Run(s, evs[..0], false) == s
  {
    assert evs[..k + 1][..k] == evs[..k];
  }

  lemma RaceReads(t: Tables, actor: Actor, c: Id, a: Id, b: Id)
    requires Tasks.Enabled(t, Tasks.AddDependency(actor, c, a, b))
    requires Tasks.Enabled(t, Tasks.AddDependency(actor, c, b, a))
    ensures Run(State(t, map[], map[]), Race(actor, c, a, b)[..4], false)
         == State(t, map[c := 2], map[1 := Checked(actor, c, a, b), 2 := Checked(actor, c, b, a)])
  {
    var s0, r := State(t, map[], map[]), Race(actor, c, a, b);
    var s1 := State(t, map[c := 1], map[1 := Holding(actor, c)]);
    var s2 := State(t, map[c := 2], map[1 := Holding(actor, c), 2 := Holding(actor, c)]);
    var s3 := State(t, map[c := 2], map[1 := Checked(actor, c, a, b), 2 := Holding(actor, c)]);
    RunNext(s0, r, 0);
    RunNext(s0, r, 1);
    RunNext(s0, r, 2);
    RunNext(s0, r, 3);
    assert Step(s0, r[0], false) == s1 && Step(s1, r[1], false) == s2 && Step(s2, r[2], false) == s3;
  }

  lemma RaceCommits(s: State, t: Tables, edges: set<(Id, Id)>, tx: nat)
    requires s.tables == t.(dependencies := edges) && PhaseOf(s, tx).Checked?
    ensures Step(s, CommitAdd(tx), false).tables
         == t.(dependencies := edges + {(PhaseOf(s, tx).task, PhaseOf(s, tx).dependsOn)})
    ensures forall other :: other != tx ==> PhaseOf(Step(s, CommitAdd(tx), false), other) == PhaseOf(s, other)
  {
  }

  /** Without the lock, any two adds that would each be allowed, in opposite directions, close a cycle. */
  lemma UnlockedRaceCloses(t: Tables, actor: Actor, c: Id, a: Id, b: Id)
    requires Tasks.Enabled(t, Tasks.AddDependency(actor, c, a, b))
    requires Tasks.Enabled(t, Tasks.AddDependency(actor, c, b, a))
    ensures var s := Run(State(t, map[], map[]), Race(actor, c, a, b), false);
      s.tables.dependencies == t.dependencies + {(a, b), (b, a)} && !Digraph.Acyclic(s.tables.dependencies)
  {
    var s0, r := State(t, map[], map[]), Race(actor, c, a, b);
    RaceReads(t, actor, c, a, b);
    RunNext(s0, r, 4);
    RunNext(s0, r, 5);
    assert r[..6] == r;
    var read := Run(s0, r[..4], false);
    RaceCommits(read, t, t.dependencies, 1);
    RaceCommits(Step(read, r[4], false), t, t.dependencies + {(a, b)}, 2);
    var edges := t.dependencies + {(a, b)} + {(b, a)};
    assert Run(s0, r, false).tables.dependencies == edges == t.dependencies + {(a, b), (b, a)};
    Digraph.EdgeReaches(edges, a, b);
    Digraph.EdgeReaches(edges, b, a);
    Digraph.ReachesTrans(edges, a, b, a);
  }
}
