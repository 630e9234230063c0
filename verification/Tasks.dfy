/** The task repository (packages/repositories/src/task.ts and task-model.ts): transitions, the completion gate that
    reads review decisions, and the dependency graph. */
module Tasks {
  import opened Prelude
  import opened CaseTables
  import Digraph

  datatype TaskInput = TaskInput(caseId: Id, requiresProfessional: bool, assignTo: Option<Id>, columns: map<string,
                                 Option<string>>,
                                 fromAgent: bool, execution: Option<string>)

  datatype Operation =
    | Create(actor: Actor, id: Id, input: TaskInput, eligible: bool)
    | Update(actor: Actor, caseId: Id, id: Id, expectedVersion: int, changes: map<string, Option<string>>)
    | Assign(actor: Actor, caseId: Id, id: Id, expectedVersion: int, assignTo: Option<Id>, eligible: bool)
    | Complete(actor: Actor, caseId: Id, id: Id, expectedVersion: int)
    | Cancel(actor: Actor, caseId: Id, id: Id, expectedVersion: int, reason: string)
    | AddDependency(actor: Actor, caseId: Id, id: Id, dependsOn: Id)
    | RemoveDependency(actor: Actor, caseId: Id, id: Id, dependsOn: Id)

  // ---------- the domain rules ----------

  const ACTIVE: set<TaskStatus> := {TaskOpen, InProgress, Blocked, AwaitingReview}
  const ACCEPTING: set<Verdict> := {Approved, ApprovedWithAmendments}
  const MUTABLE_FIELDS: set<string> := {"title", "description", "priority", "taskType", "deadlineId", "reviewRequestId"}
  const PRIORITIES: set<string> := {"urgent", "high", "normal", "low"}

  predicate Finished(t: Task) {
    t.status == Completed || t.status == Cancelled
  }

  /** Why a task may not be completed, if it may not. */
  function MayComplete(status: TaskStatus, requiresProfessional: bool, unresolved: set<Id>, verdict: Option<Verdict>,
                       review: Option<Id>): Option<string>
  {
    if status == Completed then Some("already completed")
    else if status == Cancelled then Some("cancelled")
    else if status !in ACTIVE then Some("not completable")
    else if unresolved != {} then Some("waits for others")
    else if requiresProfessional && !Named(review) then Some("no review requested")
    else if requiresProfessional && verdict.None? then Some("not decided")
    else if requiresProfessional && verdict.value !in ACCEPTING then Some("not an acceptance")
    else None
  }

  predicate Named(review: Option<Id>) {
    review.Some? && review.value != ""
  }

  predicate Present(columns: map<string, Option<string>>, key: string) {
    key in columns && !Missing(columns[key])
  }

  predicate ValidColumns(columns: map<string, Option<string>>) {
    && Present(columns, "taskType") && Present(columns, "title") && |columns["title"].value| <= 500
    && ("priority" in columns ==> columns["priority"].Some? && columns["priority"].value in PRIORITIES)
  }

  predicate ValidInput(input: TaskInput) {
    ValidColumns(input.columns) && (input.fromAgent ==> input.execution.GetOr("") != "")
  }

  /** The table's own constraints on the columns a caller sets: kind, title and priority are not null, and a linked
      review or deadline exists. */
  predicate ColumnsAllowed(t: Tables, columns: map<string, Option<string>>) {
    && columns.Keys <= MUTABLE_FIELDS
    && (forall key :: key in {"taskType", "title", "priority"} && key in columns ==> columns[key].Some?)
    && ("reviewRequestId" in columns && columns["reviewRequestId"].Some? ==>
          columns["reviewRequestId"].value in t.requests)
    && ("deadlineId" in columns && columns["deadlineId"].Some? ==> columns["deadlineId"].value in t.deadlines)
  }

  predicate ValidChanges(changes: map<string, Option<string>>) {
    && changes != map[] && changes.Keys <= MUTABLE_FIELDS
    && ("priority" in changes ==> changes["priority"].Some? && changes["priority"].value in PRIORITIES)
    && ("title" in changes ==> !Missing(changes["title"]))
  }

  // ---------- what each call does ----------

  predicate InCase(t: Tables, id: Id, caseId: Id) {
    id in t.tasks && t.tasks[id].caseId == caseId
  }

  predicate Current(t: Tables, id: Id, caseId: Id, expectedVersion: int) {
    InCase(t, id, caseId) && t.tasks[id].version == expectedVersion
  }

  /** The predecessors that are not finished. */
  function Unresolved(t: Tables, id: Id): set<Id> {
    set e | e in t.dependencies && e.0 == id && e.1 in t.tasks && !Finished(t.tasks[e.1]) :: e.1
  }

  /** The decision recorded on a request, read from the decisions and not from the request's status. */
  function VerdictOn(decisions: seq<Decision>, request: Id): Option<Verdict> {
    if decisions == [] then None
    else if decisions[0].requestId == request then Some(decisions[0].verdict)
    else VerdictOn(decisions[1..], request)
  }

  function LinkedVerdict(t: Tables, task: Task): Option<Verdict> {
    if Named(task.Review()) then VerdictOn(t.decisions, task.Review().value) else None
  }

  predicate Completable(t: Tables, id: Id)
    requires id in t.tasks
  {
    var task := t.tasks[id];
    MayComplete(task.status, task.requiresProfessional, Unresolved(t, id), LinkedVerdict(t, task), task.Review()).None?
  }

  ghost predicate Enabled(t: Tables, op: Operation) {
    MayWrite(op.actor) &&
    match op
    case Create(_, id, input, eligible) =>
      && ValidInput(input) && (input.assignTo.GetOr("") != "" ==> eligible)
      && id !in t.tasks && ColumnsAllowed(t, input.columns)
    case Update(_, caseId, id, v, changes) =>
      && ValidChanges(changes) && Current(t, id, caseId, v) && t.tasks[id].status in ACTIVE
      && ColumnsAllowed(t, changes)
    case Assign(_, caseId, id, v, to, eligible) =>
      Current(t, id, caseId, v) && (to.GetOr("") != "" ==> eligible) && t.tasks[id].status in ACTIVE
    case Complete(_, caseId, id, v) => Current(t, id, caseId, v) && Completable(t, id)
    case Cancel(_, caseId, id, v, reason) => !Blank(reason) && Current(t, id, caseId, v) && !Finished(t.tasks[id])
    case AddDependency(_, caseId, id, dep) =>
      && id != dep && InCase(t, id, caseId) && InCase(t, dep, caseId) && (id, dep) !in t.dependencies
      && !Digraph.Reaches(t.dependencies, dep, id)
    case RemoveDependency(_, caseId, id, dep) => InCase(t, id, caseId) && (id, dep) in t.dependencies
  }

  /** The row an update, assignment, completion or cancellation leaves. */
  function Changed(task: Task, op: Operation): Task
    requires op.Update? || op.Assign? || op.Complete? || op.Cancel?
  {
    match op
    case Update(_, _, _, _, changes) => task.(columns := task.columns + changes, version := task.version + 1)
    case Assign(_, _, _, _, to, _) => task.(assignedTo := to, version := task.version + 1)
    case Complete(_, _, _, _) => task.(status := Completed, version := task.version + 1)
    case Cancel(_, _, _, _, _) => task.(status := Cancelled, version := task.version + 1)
  }

  const DEFAULT_COLUMNS: map<string, Option<string>> := map["priority" := Some("normal")]

  function NewTask(input: TaskInput): Task {
    Task(input.caseId, TaskOpen, input.requiresProfessional, input.assignTo, DEFAULT_COLUMNS + input.columns, 1)
  }

  ghost function Effect(t: Tables, op: Operation): Tables
    requires Enabled(t, op)
  {
    match op
    case Create(_, id, input, _) => t.(tasks := t.tasks[id := NewTask(input)])
    case AddDependency(_, _, id, dep) => t.(dependencies := t.dependencies + {(id, dep)})
    case RemoveDependency(_, _, id, dep) => t.(dependencies := t.dependencies - {(id, dep)})
    case _ => t.(tasks := t.tasks[op.id := Changed(t.tasks[op.id], op)])
  }

  ghost function Step(t: Tables, op: Operation): Tables {
    if Enabled(t, op) then Effect(t, op) else t
  }

  // ---------- which answer a call gets ----------

  /** Why a transition is refused, in the order of its checks. */
  function TransitionRefusal(t: Tables, actor: Actor, caseId: Id, id: Id, expectedVersion: int, assignable: bool,
                             requireActive: bool, gate: bool): Option<Refusal>
  {
    if !MayWrite(actor) then Some(RefusalFor(actor))
    else if !InCase(t, id, caseId) then Some(NotPersisted)
    else if !assignable then Some(Invalid)
    else if requireActive && t.tasks[id].status !in ACTIVE then Some(Conflict)
    else if t.tasks[id].version != expectedVersion || !gate then Some(Conflict)
    else None
  }

  function OrElse(first: Option<Refusal>, otherwise: bool): Option<Refusal> {
    if first.None? && otherwise then Some(Unreachable) else first
  }

  /** Why a call is refused when no statement fails of itself. */
  ghost function RefusalOf(t: Tables, op: Operation): Option<Refusal> {
    match op
    case Create(actor, id, input, eligible) =>
      if !ValidInput(input) then Some(Invalid)
      else if !MayWrite(actor) then Some(RefusalFor(actor))
      else if input.assignTo.GetOr("") != "" && !eligible then Some(Invalid)
      else if id in t.tasks || !ColumnsAllowed(t, input.columns) then Some(Unreachable)
      else None
    case Update(actor, caseId, id, v, changes) =>
      if !ValidChanges(changes) then Some(Invalid)
      else OrElse(TransitionRefusal(t, actor, caseId, id, v, true, true, true), !ColumnsAllowed(t, changes))
    case Assign(actor, caseId, id, v, to, eligible) =>
      TransitionRefusal(t, actor, caseId, id, v, to.GetOr("") == "" || eligible, true, true)
    case Complete(actor, caseId, id, v) =>
      TransitionRefusal(t, actor, caseId, id, v, true, false, id in t.tasks && Completable(t, id))
    case Cancel(actor, caseId, id, v, reason) =>
      if Blank(reason) then Some(Invalid)
      else TransitionRefusal(t, actor, caseId, id, v, true, false, id in t.tasks && !Finished(t.tasks[id]))
    case AddDependency(actor, caseId, id, dep) =>
      if id == dep then Some(Invalid)
      else if !MayWrite(actor) then Some(RefusalFor(actor))
      else if !InCase(t, id, caseId) || !InCase(t, dep, caseId) then Some(NotPersisted)
      else if (id, dep) in t.dependencies || Digraph.Reaches(t.dependencies, dep, id) then Some(Conflict)
      else None
    case RemoveDependency(actor, caseId, id, dep) =>
      if !MayWrite(actor) then Some(RefusalFor(actor))
      else if !InCase(t, id, caseId) || (id, dep) !in t.dependencies then Some(NotPersisted)
      else None
  }

  lemma RefusedExactly(t: Tables, op: Operation)
    ensures RefusalOf(t, op).None? <==> Enabled(t, op)
  {
  }

  /** An outsider is told nothing about what is recorded, and somebody working in one case nothing about another's; to
      both it is as if what they ask for did not exist. Only a member who may not write is told so. */
  lemma HiddenAlike(t: Tables, u: Tables, op: Operation)
    requires !op.actor.belongs || (!op.Create? && !InCase(t, op.id, op.caseId) && !InCase(u, op.id, op.caseId))
    ensures RefusalOf(t, op) == RefusalOf(u, op)
    ensures RefusalOf(t, op) in if !op.actor.belongs || Writer(op.actor) then {Some(Invalid), Some(NotPersisted)}
                                else {Some(Invalid), Some(Forbidden)}
  {
  }

  /** The table allows these columns: they are among the six a caller may set, kind, title and priority are not null,
      and a review or deadline that is named exists. */
  ghost predicate Storable(t: Tables, columns: map<string, Option<string>>) {
    && (forall key :: key in columns ==>
          key in {"title", "description", "priority", "taskType", "deadlineId", "reviewRequestId"})
    && (forall key :: key in columns && columns[key].None? ==> key in {"description", "deadlineId", "reviewRequestId"})
    && (forall id :: "reviewRequestId" in columns && columns["reviewRequestId"] == Some(id) ==> id in t.requests)
    && (forall id :: "deadlineId" in columns && columns["deadlineId"] == Some(id) ==> id in t.deadlines)
  }

  predicate Urgencies(columns: map<string, Option<string>>) {
    "priority" in columns ==> columns["priority"] in {Some("urgent"), Some("high"), Some("normal"), Some("low")}
  }

  /** When each call goes through; for a completion see `CompletesExactly`. */
  lemma EnabledExactly(t: Tables, op: Operation)
    ensures op.Create? ==>
      (Enabled(t, op) <==>
         && Writer(op.actor) && op.id !in t.tasks && Urgencies(op.input.columns) && Storable(t, op.input.columns)
         && "taskType" in op.input.columns && !Missing(op.input.columns["taskType"])
         && "title" in op.input.columns && !Missing(op.input.columns["title"])
         && |op.input.columns["title"].value| <= 500
         && (op.input.fromAgent ==> op.input.execution.Some? && op.input.execution.value != "")
         && (op.input.assignTo in {None, Some("")} || op.eligible))
    ensures op.Update? ==>
      (Enabled(t, op) <==>
         && Writer(op.actor) && op.changes != map[] && Urgencies(op.changes) && Storable(t, op.changes)
         && ("title" in op.changes ==> !Missing(op.changes["title"]))
         && op.id in t.tasks && t.tasks[op.id].caseId == op.caseId && t.tasks[op.id].version == op.expectedVersion
         && t.tasks[op.id].status !in {Completed, Cancelled})
    ensures op.Assign? ==>
      (Enabled(t, op) <==>
         && Writer(op.actor) && (op.assignTo in {None, Some("")} || op.eligible)
         && op.id in t.tasks && t.tasks[op.id].caseId == op.caseId && t.tasks[op.id].version == op.expectedVersion
         && t.tasks[op.id].status !in {Completed, Cancelled})
    ensures op.Cancel? ==>
      (Enabled(t, op) <==>
         && Writer(op.actor) && !Blank(op.reason)
         && op.id in t.tasks && t.tasks[op.id].caseId == op.caseId && t.tasks[op.id].version == op.expectedVersion
         && t.tasks[op.id].status !in {Completed, Cancelled})
  {
    if op.Create? { StorableExactly(t, op.input.columns); }
    if op.Update? { StorableExactly(t, op.changes); }
    assert op.id in t.tasks ==> (t.tasks[op.id].status in ACTIVE <==> !Finished(t.tasks[op.id]));
  }

  /** An update is refused as invalid exactly where it changes nothing, or something else than the six columns, or
      sets a priority that is none, or no title. */
  lemma UpdateInvalidExactly(t: Tables, op: Operation)
    requires op.Update?
    ensures RefusalOf(t, op) == Some(Invalid) <==>
      || op.changes == map[] || !Urgencies(op.changes) || ("title" in op.changes && Missing(op.changes["title"]))
      || exists key :: key in op.changes
           && key !in {"title", "description", "priority", "taskType", "deadlineId", "reviewRequestId"}
  {
  }

  lemma StorableExactly(t: Tables, columns: map<string, Option<string>>)
    ensures ColumnsAllowed(t, columns) <==> Storable(t, columns)
  {
    if Storable(t, columns) {
      forall key | key in {"taskType", "title", "priority"} && key in columns ensures columns[key].Some? {}
    }
  }

  /** A dependency is recorded exactly for a writer, between two distinct tasks of the case, once, where it closes no
      cycle; and removed exactly where it is recorded. */
  lemma DependsExactly(t: Tables, op: Operation)
    requires Digraph.Acyclic(t.dependencies)
    ensures op.AddDependency? ==>
      (Enabled(t, op) <==>
         && Writer(op.actor) && op.id in t.tasks && t.tasks[op.id].caseId == op.caseId
         && op.dependsOn in t.tasks && t.tasks[op.dependsOn].caseId == op.caseId
         && (op.id, op.dependsOn) !in t.dependencies
         && Digraph.Acyclic(t.dependencies + {(op.id, op.dependsOn)}))
    ensures op.RemoveDependency? ==>
      (Enabled(t, op) <==>
         && Writer(op.actor) && op.id in t.tasks && t.tasks[op.id].caseId == op.caseId
         && (op.id, op.dependsOn) in t.dependencies)
  {
    if op.AddDependency? { Digraph.AddEdgeAcyclic(t.dependencies, op.id, op.dependsOn); }
  }

  /** To a writer whose call makes sense, about tasks of the case, the answer to whatever else stands in the way is a
      conflict, unless it is the table that would not have the columns. */
  lemma ToldConflict(t: Tables, op: Operation)
    requires Writer(op.actor) && !op.Create? && op.id in t.tasks && t.tasks[op.id].caseId == op.caseId
    requires op.Update? ==> RefusalOf(t, op) != Some(Invalid)
    requires op.Assign? ==> op.assignTo in {None, Some("")} || op.eligible
    requires op.Cancel? ==> !Blank(op.reason)
    requires op.AddDependency? ==>
      op.id != op.dependsOn && op.dependsOn in t.tasks && t.tasks[op.dependsOn].caseId == op.caseId
    requires op.RemoveDependency? ==> (op.id, op.dependsOn) in t.dependencies
    ensures RefusalOf(t, op) in {None, Some(Conflict), Some(Unreachable)}
    ensures RefusalOf(t, op) == Some(Unreachable) ==> op.Update? && !Storable(t, op.changes)
  {
    if op.Update? { StorableExactly(t, op.changes); }
  }

  // ---------- what every state keeps ----------

  ghost predicate EdgeInCase(t: Tables, e: (Id, Id)) {
    e.0 in t.tasks && e.1 in t.tasks && t.tasks[e.0].caseId == t.tasks[e.1].caseId
  }

  /** A completed task that requires a professional links to a review whose recorded decision is an acceptance. */
  predicate Accepted(t: Tables, task: Task) {
    task.status == Completed && task.requiresProfessional ==>
      LinkedVerdict(t, task).Some? && LinkedVerdict(t, task).value in ACCEPTING
  }

  ghost predicate Inv(t: Tables) {
    && Digraph.Acyclic(t.dependencies)
    && (forall e :: e in t.dependencies ==> EdgeInCase(t, e))
    && (forall id :: id in t.tasks ==> Accepted(t, t.tasks[id]))
  }

  lemma StepKeepsInv(t: Tables, op: Operation)
    requires Inv(t)
    ensures Inv(Step(t, op))
  {
    if Enabled(t, op) {
      match op {
        case AddDependency(_, _, id, dep) =>
          Digraph.AddEdgeAcyclic(t.dependencies, id, dep);
          forall e | e in t.dependencies + {(id, dep)} ensures EdgeInCase(Effect(t, op), e) {
            assert e in t.dependencies ==> EdgeInCase(t, e);
          }
          forall x | x in t.tasks ensures Accepted(Effect(t, op), t.tasks[x]) {
            assert Accepted(t, t.tasks[x]);
          }
        case RemoveDependency(_, _, id, dep) =>
          Digraph.SubgraphAcyclic(Effect(t, op).dependencies, t.dependencies);
          forall e | e in Effect(t, op).dependencies ensures EdgeInCase(Effect(t, op), e) {
            assert EdgeInCase(t, e);
          }
          forall x | x in t.tasks ensures Accepted(Effect(t, op), t.tasks[x]) {
            assert Accepted(t, t.tasks[x]);
          }
        case _ =>
          RowChangeKeepsInv(t, op);
      }
    }
  }

  lemma RowChangeKeepsInv(t: Tables, op: Operation)
    requires Inv(t) && Enabled(t, op) && !op.AddDependency? && !op.RemoveDependency?
    ensures Inv(Effect(t, op))
  {
    var after := Effect(t, op);
    forall e | e in t.dependencies ensures EdgeInCase(after, e) {
      assert EdgeInCase(t, e);
    }
    forall x | x in after.tasks ensures Accepted(after, after.tasks[x]) {
      if x != op.id {
        assert Accepted(t, t.tasks[x]);
      }
    }
  }

  // ---------- what no later call undoes ----------

  /** Finished tasks are frozen, decisions only accumulate, and a task keeps its case, its professional requirement and
      a version that only rises. */
  ghost predicate Follows(before: Tables, after: Tables) {
    && before.decisions <= after.decisions
    && (forall id :: id in before.tasks ==> id in after.tasks && SameTask(before.tasks[id], after.tasks[id]))
  }

  predicate SameTask(a: Task, b: Task) {
    && a.caseId == b.caseId && a.requiresProfessional == b.requiresProfessional && a.version <= b.version
    && (Finished(a) ==> a == b)
  }

  lemma StepFollows(t: Tables, op: Operation)
    ensures Follows(t, Step(t, op))
  {
  }

  lemma FollowsTrans(a: Tables, b: Tables, c: Tables)
    requires Follows(a, b) && Follows(b, c)
    ensures Follows(a, c)
  {
    forall id | id in a.tasks
      ensures id in c.tasks && SameTask(a.tasks[id], c.tasks[id])
    {
      assert SameTask(a.tasks[id], b.tasks[id]) && SameTask(b.tasks[id], c.tasks[id]);
    }
  }

  lemma {:induction false} VerdictStays(decisions: seq<Decision>, more: seq<Decision>, request: Id)
    requires decisions <= more && VerdictOn(decisions, request).Some?
    ensures VerdictOn(more, request) == VerdictOn(decisions, request)
  {
    if decisions[0].requestId != request {
      VerdictStays(decisions[1..], more[1..], request);
    }
  }

  lemma {:induction false} VerdictFound(decisions: seq<Decision>, request: Id)
    ensures VerdictOn(decisions, request).None? ==> forall i :: 0 <= i < |decisions| ==>
      decisions[i].requestId != request
    ensures VerdictOn(decisions, request).Some? ==>
        exists i :: 0 <= i < |decisions| && decisions[i].requestId == request
          && decisions[i].verdict == VerdictOn(decisions, request).value
  {
    if decisions != [] && decisions[0].requestId != request {
      var rest := decisions[1..];
      VerdictFound(rest, request);
      forall i | 0 < i < |decisions| ensures decisions[i] == rest[i - 1] { }
      if VerdictOn(decisions, request).Some? {
        var j :| 0 <= j < |rest| && rest[j].requestId == request
                 && rest[j].verdict == VerdictOn(decisions, request).value;
        assert decisions[j + 1] == rest[j];
      }
    }
  }

  /** `decisions[k]` is the first decision recorded on the request. */
  ghost predicate FirstOn(decisions: seq<Decision>, request: Id, k: int) {
    && 0 <= k < |decisions| && decisions[k].requestId == request
    && forall j :: 0 <= j < k ==> decisions[j].requestId != request
  }

  /** It is an approval, with amendments or without. */
  ghost predicate AcceptedFirst(decisions: seq<Decision>, request: Id) {
    exists k :: FirstOn(decisions, request, k) && decisions[k].verdict in {Approved, ApprovedWithAmendments}
  }

  lemma {:induction false} VerdictFirst(decisions: seq<Decision>, request: Id)
    ensures AcceptedFirst(decisions, request) <==>
      VerdictOn(decisions, request) in {Some(Approved), Some(ApprovedWithAmendments)}
  {
    if decisions != [] {
      var rest := decisions[1..];
      VerdictFirst(rest, request);
      if decisions[0].requestId == request {
        assert FirstOn(decisions, request, 0);
      } else {
        assert forall k :: FirstOn(rest, request, k) ==> FirstOn(decisions, request, k + 1);
        assert forall k :: FirstOn(decisions, request, k) ==> FirstOn(rest, request, k - 1);
      }
    }
  }

  /** What completion asks of the tables: the task is the case's, at that version and not yet finished, everything
      recorded as a predecessor is completed or cancelled, and if a professional is required a review is linked and the
      first decision recorded on it is an approval, with amendments or without. */
  ghost predicate ReadyToComplete(t: Tables, caseId: Id, id: Id, version: int) {
    && id in t.tasks && t.tasks[id].caseId == caseId && t.tasks[id].version == version
    && t.tasks[id].status !in {Completed, Cancelled}
    && (forall p :: (id, p) in t.dependencies && p in t.tasks ==> t.tasks[p].status in {Completed, Cancelled})
    && (t.tasks[id].requiresProfessional ==>
          && "reviewRequestId" in t.tasks[id].columns && t.tasks[id].columns["reviewRequestId"].Some?
          && t.tasks[id].columns["reviewRequestId"].value != ""
          && AcceptedFirst(t.decisions, t.tasks[id].columns["reviewRequestId"].value))
  }

  lemma PredecessorsFinished(t: Tables, id: Id)
    ensures Unresolved(t, id) == {} <==>
      forall p :: (id, p) in t.dependencies && p in t.tasks ==> t.tasks[p].status in {Completed, Cancelled}
  {
    if Unresolved(t, id) == {} {
      forall p | (id, p) in t.dependencies && p in t.tasks
        ensures t.tasks[p].status in {Completed, Cancelled}
      {
        var e := (id, p);
        assert e.1 in Unresolved(t, id) || Finished(t.tasks[e.1]);
      }
    } else {
      var p :| p in Unresolved(t, id);
      assert (id, p) in t.dependencies;
    }
  }

  /** A completion goes through for a caller of the workspace in a writing role exactly on a task that is ready. */
  lemma CompletesExactly(t: Tables, actor: Actor, caseId: Id, id: Id, version: int)
    ensures Enabled(t, Complete(actor, caseId, id, version)) <==>
      && actor.belongs && actor.role in {Caseworker, Adviser, Solicitor, Admin}
      && ReadyToComplete(t, caseId, id, version)
  {
    if id in t.tasks {
      PredecessorsFinished(t, id);
      var review := t.tasks[id].Review();
      if Named(review) { VerdictFirst(t.decisions, review.value); }
      assert t.tasks[id].status in ACTIVE <==> !Finished(t.tasks[id]);
    }
  }

  /** Once completed on an accepted review, a task stays so: neither its row nor that verdict can change. */
  lemma CompletedStays(before: Tables, after: Tables, id: Id)
    requires Follows(before, after) && id in before.tasks && before.tasks[id].status == Completed
    ensures id in after.tasks && after.tasks[id] == before.tasks[id]
    ensures LinkedVerdict(before, before.tasks[id]).Some? ==>
      LinkedVerdict(after, after.tasks[id]) == LinkedVerdict(before, before.tasks[id])
  {
    assert SameTask(before.tasks[id], after.tasks[id]);
    var task := before.tasks[id];
    if LinkedVerdict(before, task).Some? {
      VerdictStays(before.decisions, after.decisions, task.Review().value);
    }
  }

  predicate Writes(op: Operation, id: Id, version: int) {
    (op.Update? || op.Assign? || op.Complete? || op.Cancel?) && op.id == id && op.expectedVersion == version
  }

  lemma TokenSpent(before: Tables, op: Operation, later: Tables, again: Operation, id: Id, version: int)
    requires Enabled(before, op) && Writes(op, id, version) && Writes(again, id, version)
    requires Follows(Effect(before, op), later)
    ensures !Enabled(later, again)
  {
    assert SameTask(Effect(before, op).tasks[id], later.tasks[id]);
  }

  // ---------- dependencies ----------

  /** A dependency between two distinct tasks of the case that is not yet recorded is refused exactly when recording it
      would close a cycle. */
  lemma RefusedExactlyForCycles(t: Tables, op: Operation)
    requires Inv(t) && op.AddDependency? && MayWrite(op.actor)
    requires InCase(t, op.id, op.caseId) && InCase(t, op.dependsOn, op.caseId)
    requires (op.id, op.dependsOn) !in t.dependencies
    ensures Enabled(t, op) <==> Digraph.Acyclic(t.dependencies + {(op.id, op.dependsOn)})
  {
    Digraph.AddEdgeAcyclic(t.dependencies, op.id, op.dependsOn);
  }

  /** Dependencies never deadlock a case: while it has unfinished tasks, one of them waits for nothing, and completing
      it is refused only for want of an accepted review. */
  lemma NeverDeadlocked(t: Tables, caseId: Id, some: Id) returns (ready: Id)
    requires Inv(t) && InCase(t, some, caseId) && t.tasks[some].status in ACTIVE
    ensures ready in t.tasks && t.tasks[ready].caseId == caseId && t.tasks[ready].status !in {Completed, Cancelled}
    ensures forall p :: (ready, p) in t.dependencies ==> p in t.tasks && t.tasks[p].status in {Completed, Cancelled}
    ensures Completable(t, ready) <==>
              (t.tasks[ready].requiresProfessional ==>
                 LinkedVerdict(t, t.tasks[ready]).Some? && LinkedVerdict(t, t.tasks[ready]).value in ACCEPTING)
  {
    var unfinished := set id | id in t.tasks && t.tasks[id].caseId == caseId && t.tasks[id].status in ACTIVE;
    ready := Digraph.SinkExists(t.dependencies, unfinished, some);
    forall e | e in t.dependencies && e.0 == ready && e.1 in t.tasks
      ensures Finished(t.tasks[e.1])
    {
      assert EdgeInCase(t, e);
      assert e == (ready, e.1) && e.1 !in unfinished;
    }
    forall p | (ready, p) in t.dependencies
      ensures p in t.tasks && t.tasks[p].status in {Completed, Cancelled}
    {
      assert EdgeInCase(t, (ready, p)) && p !in unfinished;
    }
  }

  // ---------- the repository ----------

  class TaskRepository {
    const db: Database

    constructor (db: Database)
      ensures this.db == db
    {
      this.db := db;
    }

    method CreateTask(actor: Actor, input: TaskInput, newId: Id, eligible: bool, fault: bool)
      returns (r: Result<Task, Refusal>)
      modifies db
      ensures r.Success? <==> !fault && Enabled(old(db.tables), Create(actor, newId, input, eligible))
      ensures db.tables == if r.Success?
                           then Effect(old(db.tables), Create(actor, newId, input, eligible))
                           else old(db.tables)
      ensures r.Failure? ==>
        || Some(r.error) == RefusalOf(old(db.tables), Create(actor, newId, input, eligible))
        || (fault && r.error == Unreachable)
      ensures r.Success? ==>
        && r.value.caseId == input.caseId && r.value.status == TaskOpen && r.value.version == 1
        && r.value.requiresProfessional == input.requiresProfessional && r.value.assignedTo == input.assignTo
        && r.value.columns == map["priority" := Some("normal")] + input.columns
        && db.tables == old(db.tables).(tasks := old(db.tables).tasks[newId := r.value])
    {
      if !ValidInput(input) { return Failure(Invalid); }
      if !MayWrite(actor) { return Failure(RefusalFor(actor)); }
      if input.assignTo.GetOr("") != "" && !eligible { return Failure(Invalid); }
      if fault || newId in db.tables.tasks || !ColumnsAllowed(db.tables, input.columns) { return Failure(Unreachable); }
      var row := Task(input.caseId, TaskOpen, input.requiresProfessional, input.assignTo,
                      DEFAULT_COLUMNS + input.columns, 1);
      db.tables := db.tables.(tasks := db.tables.tasks[newId := row]);
      return Success(row);
    }

    method UpdateTask(actor: Actor, caseId: Id, id: Id, expectedVersion: int, changes: map<string, Option<string>>,
                      fault: bool)
      returns (r: Result<Task, Refusal>)
      modifies db
      ensures r.Success? <==> !fault && Enabled(old(db.tables), Update(actor, caseId, id, expectedVersion, changes))
      ensures db.tables == if r.Success?
                           then Effect(old(db.tables), Update(actor, caseId, id, expectedVersion, changes))
                           else old(db.tables)
      ensures r.Failure? ==>
        || Some(r.error) == RefusalOf(old(db.tables), Update(actor, caseId, id, expectedVersion, changes))
        || (fault && r.error == Unreachable)
      ensures r.Success? ==>
        && r.value == old(db.tables).tasks[id].(columns := old(db.tables).tasks[id].columns + changes,
                                                version := expectedVersion + 1)
        && db.tables == old(db.tables).(tasks := old(db.tables).tasks[id := r.value])
    {
      if !ValidChanges(changes) { return Failure(Invalid); }
      r := Transition(actor, caseId, id, expectedVersion, Update(actor, caseId, id, expectedVersion, changes),
                      true, true, true, fault || !ColumnsAllowed(db.tables, changes));
    }

    method AssignTask(actor: Actor, caseId: Id, id: Id, expectedVersion: int, assignTo: Option<Id>, eligible: bool,
                      fault: bool)
      returns (r: Result<Task, Refusal>)
      modifies db
      ensures r.Success? <==>
        !fault && Enabled(old(db.tables), Assign(actor, caseId, id, expectedVersion, assignTo, eligible))
      ensures db.tables == if r.Success?
                           then Effect(old(db.tables), Assign(actor, caseId, id, expectedVersion, assignTo, eligible))
                           else old(db.tables)
      ensures r.Failure? ==>
        || Some(r.error) == RefusalOf(old(db.tables), Assign(actor, caseId, id, expectedVersion, assignTo, eligible))
        || (fault && r.error == Unreachable)
      ensures r.Success? ==>
        && r.value == old(db.tables).tasks[id].(assignedTo := assignTo, version := expectedVersion + 1)
        && db.tables == old(db.tables).(tasks := old(db.tables).tasks[id := r.value])
    {
      r := Transition(actor, caseId, id, expectedVersion,
                      Assign(actor, caseId, id, expectedVersion, assignTo, eligible),
                      assignTo.GetOr("") == "" || eligible, true, true, fault);
    }

    method CompleteTask(actor: Actor, caseId: Id, id: Id, expectedVersion: int, fault: bool)
      returns (r: Result<Task, Refusal>)
      modifies db
      ensures r.Success? <==> !fault && Enabled(old(db.tables), Complete(actor, caseId, id, expectedVersion))
      ensures r.Success? <==>
        && !fault && actor.belongs && actor.role in {Caseworker, Adviser, Solicitor, Admin}
        && ReadyToComplete(old(db.tables), caseId, id, expectedVersion)
      ensures db.tables == if r.Success?
                           then Effect(old(db.tables), Complete(actor, caseId, id, expectedVersion))
                           else old(db.tables)
      ensures r.Failure? ==>
        || Some(r.error) == RefusalOf(old(db.tables), Complete(actor, caseId, id, expectedVersion))
        || (fault && r.error == Unreachable)
      ensures r.Success? ==>
        && r.value == old(db.tables).tasks[id].(status := Completed, version := expectedVersion + 1)
        && db.tables == old(db.tables).(tasks := old(db.tables).tasks[id := r.value])
    {
      var gate := id in db.tables.tasks && Completable(db.tables, id);
      CompletesExactly(db.tables, actor, caseId, id, expectedVersion);
      r := Transition(actor, caseId, id, expectedVersion, Complete(actor, caseId, id, expectedVersion), true, false,
                      gate, fault);
    }

    method CancelTask(actor: Actor, caseId: Id, id: Id, expectedVersion: int, reason: string, fault: bool)
      returns (r: Result<Task, Refusal>)
      modifies db
      ensures r.Success? <==> !fault && Enabled(old(db.tables), Cancel(actor, caseId, id, expectedVersion, reason))
      ensures db.tables == if r.Success?
                           then Effect(old(db.tables), Cancel(actor, caseId, id, expectedVersion, reason))
                           else old(db.tables)
      ensures r.Failure? ==>
        || Some(r.error) == RefusalOf(old(db.tables), Cancel(actor, caseId, id, expectedVersion, reason))
        || (fault && r.error == Unreachable)
      ensures r.Success? ==>
        && r.value == old(db.tables).tasks[id].(status := Cancelled, version := expectedVersion + 1)
        && db.tables == old(db.tables).(tasks := old(db.tables).tasks[id := r.value])
    {
      if Blank(reason) { return Failure(Invalid); }
      var gate := id in db.tables.tasks && !Finished(db.tables.tasks[id]);
      r := Transition(actor, caseId, id, expectedVersion, Cancel(actor, caseId, id, expectedVersion, reason), true,
                      false, gate, fault);
    }

    /** The shape of every task transition. */
    method Transition(actor: Actor, caseId: Id, id: Id, expectedVersion: int, op: Operation, assignable: bool,
                      requireActive: bool,
                      gate: bool, fault: bool) returns (r: Result<Task, Refusal>)
      requires op.Update? || op.Assign? || op.Complete? || op.Cancel?
      modifies db
      ensures r.Success? <==>
          && !fault && MayWrite(actor) && Current(old(db.tables), id, caseId, expectedVersion) && assignable && gate
          && (requireActive ==> old(db.tables).tasks[id].status in ACTIVE)
      ensures var refusal :=
          TransitionRefusal(old(db.tables), actor, caseId, id, expectedVersion, assignable, requireActive, gate);
        r.Failure? ==> Some(r.error) == OrElse(refusal, fault)
      ensures r.Failure? ==> db.tables == old(db.tables)
      ensures r.Success? ==> r.value == Changed(old(db.tables).tasks[id], op)
      ensures r.Success? ==> db.tables == old(db.tables).(tasks := old(db.tables).tasks[id := r.value])
    {
      if !MayWrite(actor) { return Failure(RefusalFor(actor)); }
      if !InCase(db.tables, id, caseId) { return Failure(NotPersisted); }
      var task := db.tables.tasks[id];
      if !assignable { return Failure(Invalid); }
      if requireActive && task.status !in ACTIVE { return Failure(Conflict); }
      if task.version != expectedVersion { return Failure(Conflict); }
      if !gate { return Failure(Conflict); }
      if fault { return Failure(Unreachable); }
      var row := Changed(task, op);
      db.tables := db.tables.(tasks := db.tables.tasks[id := row]);
      return Success(row);
    }

    method AddTaskDependency(actor: Actor, caseId: Id, id: Id, dependsOn: Id, fault: bool)
      returns (r: Result<Task, Refusal>)
      modifies db
      ensures r.Success? <==> !fault && Enabled(old(db.tables), AddDependency(actor, caseId, id, dependsOn))
      ensures db.tables == if r.Success?
                           then Effect(old(db.tables), AddDependency(actor, caseId, id, dependsOn))
                           else old(db.tables)
      ensures r.Failure? ==>
        || Some(r.error) == RefusalOf(old(db.tables), AddDependency(actor, caseId, id, dependsOn))
        || (fault && r.error == Unreachable)
      ensures r.Success? ==>
        && r.value == old(db.tables).tasks[id]
        && db.tables == old(db.tables).(dependencies := old(db.tables).dependencies + {(id, dependsOn)})
    {
      if id == dependsOn { return Failure(Invalid); }
      if !MayWrite(actor) { return Failure(RefusalFor(actor)); }
      if !InCase(db.tables, id, caseId) || !InCase(db.tables, dependsOn, caseId) { return Failure(NotPersisted); }
      if (id, dependsOn) in db.tables.dependencies { return Failure(Conflict); }
      var walk := WalkFrom(db.tables.dependencies, dependsOn);
      Digraph.BelowIff(db.tables.dependencies, dependsOn, id);
      if id in walk { return Failure(Conflict); }
      if fault { return Failure(Unreachable); }
      db.tables := db.tables.(dependencies := db.tables.dependencies + {(id, dependsOn)});
      return Success(db.tables.tasks[id]);
    }

    method RemoveTaskDependency(actor: Actor, caseId: Id, id: Id, dependsOn: Id, fault: bool)
      returns (r: Result<Task, Refusal>)
      modifies db
      ensures r.Success? <==> !fault && Enabled(old(db.tables), RemoveDependency(actor, caseId, id, dependsOn))
      ensures db.tables == if r.Success?
                           then Effect(old(db.tables), RemoveDependency(actor, caseId, id, dependsOn))
                           else old(db.tables)
      ensures r.Failure? ==>
        || Some(r.error) == RefusalOf(old(db.tables), RemoveDependency(actor, caseId, id, dependsOn))
        || (fault && r.error == Unreachable)
      ensures r.Success? ==>
        && r.value == old(db.tables).tasks[id]
        && db.tables == old(db.tables).(dependencies := old(db.tables).dependencies - {(id, dependsOn)})
    {
      if !MayWrite(actor) { return Failure(RefusalFor(actor)); }
      if !InCase(db.tables, id, caseId) { return Failure(NotPersisted); }
      if (id, dependsOn) !in db.tables.dependencies { return Failure(NotPersisted); }
      if fault { return Failure(Unreachable); }
      db.tables := db.tables.(dependencies := db.tables.dependencies - {(id, dependsOn)});
      return Success(db.tables.tasks[id]);
    }
  }

  /** `WITH RECURSIVE walk`: everything the start depends on, directly or through others. */
  method WalkFrom(g: set<(Id, Id)>, start: Id) returns (walk: set<Id>)
    ensures walk == Digraph.Below(g, start)
  {
    walk := {};
    var frontier := Heads(g, {start});
    HeadsReached(g, start, {start});
    while frontier != {}
      invariant walk + frontier <= Digraph.Below(g, start) && walk !! frontier
      invariant Heads(g, {start} + walk) <= walk + frontier
      decreases Digraph.Below(g, start) - walk
    {
      var next := Heads(g, frontier);
      HeadsReached(g, start, frontier);
      walk := walk + frontier;
      frontier := next - walk;
    }
    forall x | x in Digraph.Below(g, start)
      ensures x in walk
    {
      Digraph.BelowIff(g, start, x);
      var p :| Digraph.Joins(g, p, start, x);
      WalkStays(g, start, walk, p);
    }
  }

  function Heads(g: set<(Id, Id)>, tails: set<Id>): set<Id> {
    set e | e in g && e.0 in tails :: e.1
  }

  lemma HeadsReached(g: set<(Id, Id)>, start: Id, tails: set<Id>)
    requires tails <= {start} + Digraph.Below(g, start)
    ensures Heads(g, tails) <= Digraph.Below(g, start)
  {
    forall x | x in Heads(g, tails)
      ensures x in Digraph.Below(g, start)
    {
      var e :| e in g && e.0 in tails && e.1 == x;
      Digraph.EdgeReaches(g, e.0, x);
      if e.0 != start {
        Digraph.BelowIff(g, start, e.0);
        Digraph.ReachesTrans(g, start, e.0, x);
      }
      Digraph.BelowIff(g, start, x);
    }
  }

  lemma {:induction false} WalkStays(g: set<(Id, Id)>, start: Id, walk: set<Id>, p: seq<Id>)
    requires Heads(g, {start} + walk) <= walk && Digraph.IsWalk(g, p) && |p| >= 2 && p[0] in {start} + walk
    ensures p[|p| - 1] in walk
  {
    assert (p[0], p[1]) in g;
    assert (p[0], p[1]).1 in Heads(g, {start} + walk);
    if |p| > 2 {
      WalkStays(g, start, walk, p[1..]);
    }
  }
}
