/** Runs of review and task calls over the shared tables, in any order, and deadlines being recorded meanwhile. */
module CaseRuns {
  import opened Prelude
  import opened CaseTables
  import Reviews
  import Tasks
  import Digraph

  datatype Operation = OnReview(review: Reviews.Operation) | OnTask(task: Tasks.Operation) | OnDeadline(deadline: Id)

  ghost function Step(t: Tables, op: Operation): Tables {
    match op
    case OnReview(r) => Reviews.Step(t, r)
    case OnTask(k) => Tasks.Step(t, k)
    case OnDeadline(id) => t.(deadlines := t.deadlines + {id})
  }

  /** The tables after the calls; one that is refused, or fails, leaves them as they were. */
  ghost function Run(t: Tables, ops: seq<Operation>): Tables {
    if ops == [] then t else Step(Run(t, ops[..|ops| - 1]), ops[|ops| - 1])
  }

  ghost predicate Inv(t: Tables) {
    Reviews.Inv(t) && Tasks.Inv(t)
  }

  ghost predicate Follows(before: Tables, after: Tables) {
    Reviews.Follows(before, after) && Tasks.Follows(before, after)
  }

  lemma StepKeeps(t: Tables, op: Operation)
    requires Inv(t)
    ensures Inv(Step(t, op)) && Follows(t, Step(t, op))
  {
    match op {
      case OnReview(r) => ReviewStepKeeps(t, r);
      case OnTask(k) => TaskStepKeeps(t, k);
      case OnDeadline(_) =>
        ReviewsUntouched(t, Step(t, op));
        TasksUntouched(t, Step(t, op));
    }
  }

  lemma ReviewStepKeeps(t: Tables, r: Reviews.Operation)
    requires Inv(t)
    ensures Inv(Reviews.Step(t, r)) && Follows(t, Reviews.Step(t, r))
  {
    Reviews.StepKeepsInv(t, r);
    Reviews.StepFollows(t, r);
    TasksUntouched(t, Reviews.Step(t, r));
  }

  lemma TaskStepKeeps(t: Tables, k: Tasks.Operation)
    requires Inv(t)
    ensures Inv(Tasks.Step(t, k)) && Follows(t, Tasks.Step(t, k))
  {
    Tasks.StepKeepsInv(t, k);
    Tasks.StepFollows(t, k);
    ReviewsUntouched(t, Tasks.Step(t, k));
  }

  /** A review call leaves the tasks alone, and adds at most a decision on a request that had none. */
  lemma TasksUntouched(t: Tables, after: Tables)
    requires Tasks.Inv(t) && after.tasks == t.tasks && after.dependencies == t.dependencies
    requires t.decisions <= after.decisions
    ensures Tasks.Inv(after) && Tasks.Follows(t, after)
  {
    assert Tasks.Follows(t, after);
    forall id | id in t.tasks
      ensures Tasks.Accepted(after, after.tasks[id])
    {
      assert Tasks.Accepted(t, t.tasks[id]);
      if t.tasks[id].status == Completed { Tasks.CompletedStays(t, after, id); }
    }
    assert forall e :: Tasks.EdgeInCase(t, e) ==> Tasks.EdgeInCase(after, e);
  }

  lemma ReviewsUntouched(t: Tables, after: Tables)
    requires Reviews.Inv(t) && after.requests == t.requests && after.decisions == t.decisions
    ensures Reviews.Inv(after)
  {
    forall i | 0 <= i < |t.decisions| ensures Reviews.DecisionSound(after, t.decisions[i]) {
      assert Reviews.DecisionSound(t, t.decisions[i]);
    }
    assert forall id :: Reviews.HasDecision(after, id) <==> Reviews.HasDecision(t, id);
  }

  /** Every reachable state keeps both invariants, and nothing a later call does undoes what an earlier one settled. */
  lemma {:induction false} RunKeeps(t: Tables, ops: seq<Operation>)
    requires Inv(t)
    ensures Inv(Run(t, ops)) && Follows(t, Run(t, ops))
  {
    if ops != [] {
      var middle := Run(t, ops[..|ops| - 1]);
      RunKeeps(t, ops[..|ops| - 1]);
      StepKeeps(middle, ops[|ops| - 1]);
      Reviews.FollowsTrans(t, middle, Run(t, ops));
      Tasks.FollowsTrans(t, middle, Run(t, ops));
    }
  }

  lemma EmptyInv()
    ensures Inv(EMPTY)
  {
    assert forall x, p :: !Digraph.Joins(EMPTY.dependencies, p, x, x) by {
      forall x, p ensures !Digraph.Joins(EMPTY.dependencies, p, x, x) {
        if |p| >= 2 { assert (p[0], p[1]) !in EMPTY.dependencies; }
      }
    }
  }

  // ---------- where what is recorded comes from ----------

  /** The `k`-th call of a run from empty tables went through. */
  ghost predicate WentThrough(ops: seq<Operation>, k: int) {
    0 <= k < |ops| &&
    match ops[k]
    case OnReview(r) => Reviews.Enabled(Run(EMPTY, ops[..k]), r)
    case OnTask(x) => Tasks.Enabled(Run(EMPTY, ops[..k]), x)
    case OnDeadline(_) => true
  }

  /** It asked for the review `id`. */
  ghost predicate Asks(ops: seq<Operation>, k: int, id: Id) {
    WentThrough(ops, k) && ops[k].OnReview? && ops[k].review.Ask? && ops[k].review.id == id
  }

  /** It decided the review `id`. */
  ghost predicate Decides(ops: seq<Operation>, k: int, id: Id) {
    WentThrough(ops, k) && ops[k].OnReview? && ops[k].review.Decide? && ops[k].review.id == id
  }

  /** It completed the task `id`. */
  ghost predicate Completes(ops: seq<Operation>, k: int, id: Id) {
    WentThrough(ops, k) && ops[k].OnTask? && ops[k].task.Complete? && ops[k].task.id == id
  }

  /** What the decision row says is what the call said, and by whom. */
  predicate Records(d: Decision, op: Reviews.Operation)
    requires op.Decide?
  {
    && d.requestId == op.id && d.verdict == op.verdict && d.basis == op.basis && d.digest == op.digest
    && d.decidedBy == op.actor.id && d.role == op.actor.role && d.registration == op.actor.registration
  }

  /** The request row still has the terms it was asked on, and names who asked. */
  predicate Carries(r: Request, op: Reviews.Operation)
    requires op.Ask?
  {
    && r.requestedBy == op.actor.id && r.caseId == op.input.caseId
    && r.requiresProfessional == op.input.requiresProfessional
    && r.reservedActivity == op.input.reservedActivity && r.requiredRole == op.input.requiredRole
  }

  lemma EarlierCalls(ops: seq<Operation>, n: nat, k: int)
    requires k < n <= |ops|
    ensures WentThrough(ops[..n], k) <==> WentThrough(ops, k)
  {
    if 0 <= k { assert ops[..n][..k] == ops[..k] && ops[..n][k] == ops[k]; }
  }

  ghost predicate DecidedAs(ops: seq<Operation>, k: int, d: Decision) {
    Decides(ops, k, d.requestId) && Records(d, ops[k].review)
  }

  /** The decisions recorded are those of the calls that went through, word for word and nobody else's. */
  lemma {:induction false} DecisionsExactly(ops: seq<Operation>, d: Decision)
    ensures d in Run(EMPTY, ops).decisions <==> exists k :: DecidedAs(ops, k, d)
  {
    if ops != [] {
      var n := |ops| - 1;
      DecisionsExactly(ops[..n], d);
      assert forall k :: DecidedAs(ops[..n], k, d) ==> k < n;
      forall k | k < n ensures DecidedAs(ops[..n], k, d) <==> DecidedAs(ops, k, d) { EarlierCalls(ops, n, k); }
      LastDecision(Run(EMPTY, ops[..n]), ops[n], d);
      assert DecidedAs(ops, n, d) <==> LeavesDecision(Run(EMPTY, ops[..n]), ops[n], d);
    }
  }

  ghost predicate LeavesDecision(t: Tables, op: Operation, d: Decision) {
    op.OnReview? && op.review.Decide? && Reviews.Enabled(t, op.review) && Records(d, op.review)
  }

  lemma LastDecision(t: Tables, op: Operation, d: Decision)
    ensures d in Step(t, op).decisions <==> d in t.decisions || LeavesDecision(t, op, d)
  {
    match op {
      case OnReview(r) =>
        if Reviews.Enabled(t, r) && r.Decide? {
          var row := Decision(r.id, r.verdict, r.basis, r.actor.id, r.actor.role, r.actor.registration, r.digest);
          assert Step(t, op).decisions == t.decisions + [row];
        }
      case OnTask(_) =>
      case OnDeadline(_) =>
    }
  }

  /** A request is recorded exactly when a call asked for it, once; it keeps that call's terms, and the caller is who
      asked. */
  lemma {:induction false} RequestsExactly(ops: seq<Operation>, id: Id)
    ensures id in Run(EMPTY, ops).requests <==> exists k :: Asks(ops, k, id)
    ensures forall k :: Asks(ops, k, id) ==>
      id in Run(EMPTY, ops).requests && Carries(Run(EMPTY, ops).requests[id], ops[k].review)
  {
    if ops != [] {
      var n := |ops| - 1;
      RequestsExactly(ops[..n], id);
      LastRequest(Run(EMPTY, ops[..n]), ops[n], id);
      forall k | Asks(ops, k, id)
        ensures id in Run(EMPTY, ops).requests && Carries(Run(EMPTY, ops).requests[id], ops[k].review)
      {
        if k < n { EarlierAsk(ops, n, k, id); }
      }
      if id in Run(EMPTY, ops[..n]).requests {
        var k :| Asks(ops[..n], k, id);
        EarlierAsk(ops, n, k, id);
      } else if id in Run(EMPTY, ops).requests {
        assert Asks(ops, n, id);
      }
    }
  }

  lemma EarlierAsk(ops: seq<Operation>, n: nat, k: int, id: Id)
    requires k < n <= |ops|
    ensures Asks(ops[..n], k, id) <==> Asks(ops, k, id)
  {
    EarlierCalls(ops, n, k);
  }

  lemma LastRequest(t: Tables, op: Operation, id: Id)
    ensures id in t.requests ==>
      id in Step(t, op).requests && Reviews.SameTerms(t.requests[id], Step(t, op).requests[id])
    ensures id in Step(t, op).requests && id !in t.requests <==>
      op.OnReview? && op.review.Ask? && op.review.id == id && Reviews.Enabled(t, op.review)
    ensures id in Step(t, op).requests && id !in t.requests ==> Carries(Step(t, op).requests[id], op.review)
  {
    if op.OnReview? { Reviews.StepFollows(t, op.review); }
  }

  /** Whoever decides a review is somebody other than the one who asked for it, whatever else was called: the call that
      asked went through earlier, and on its terms the decider was entitled to decide. */
  lemma DecidedByAnother(ops: seq<Operation>, k: nat, id: Id) returns (asked: nat)
    requires Decides(ops, k, id)
    ensures asked < k && Asks(ops, asked, id)
    ensures var ask, decide := ops[asked].review, ops[k].review;
      && decide.actor.id != ask.actor.id && decide.caseId == ask.input.caseId
      && decide.actor.belongs && decide.actor.role in {Caseworker, Adviser, Solicitor, Admin}
      && ask.input.requiredRole in {None, Some(decide.actor.role)}
      && (ask.input.requiresProfessional ==>
            && decide.actor.role in {Solicitor, Adviser}
            && decide.actor.registration.Some? && !Blank(decide.actor.registration.value))
  {
    var t, op := Run(EMPTY, ops[..k]), ops[k].review;
    EmptyInv();
    RunKeeps(EMPTY, ops[..k]);
    Reviews.DecidesExactly(t, op.actor, op.caseId, op.id, op.expectedVersion, op.verdict, op.basis, op.digest);
    RequestsExactly(ops[..k], id);
    asked :| Asks(ops[..k], asked, id);
    EarlierCalls(ops, k, asked);
  }

  /** Completion goes through exactly for a caller of the workspace in a writing role, on an unfinished task of the case
      at that version, every recorded predecessor of which is completed or cancelled, and which, if it requires a
      professional, links to a review with an accepting decision on record. */
  lemma CompleteExactly(t: Tables, actor: Actor, caseId: Id, id: Id, version: int)
    requires Inv(t)
    ensures Tasks.Enabled(t, Tasks.Complete(actor, caseId, id, version)) <==>
      && actor.belongs && actor.role in {Caseworker, Adviser, Solicitor, Admin}
      && id in t.tasks && t.tasks[id].caseId == caseId && t.tasks[id].version == version
      && t.tasks[id].status in {TaskOpen, InProgress, Blocked, AwaitingReview}
      && (forall p :: (id, p) in t.dependencies ==> p in t.tasks && t.tasks[p].status in {Completed, Cancelled})
      && (t.tasks[id].requiresProfessional ==>
            && "reviewRequestId" in t.tasks[id].columns && t.tasks[id].columns["reviewRequestId"].Some?
            && t.tasks[id].columns["reviewRequestId"].value != ""
            && HasAcceptance(t, t.tasks[id].columns["reviewRequestId"].value))
  {
    Tasks.CompletesExactly(t, actor, caseId, id, version);
    forall p | (id, p) in t.dependencies ensures p in t.tasks { assert Tasks.EdgeInCase(t, (id, p)); }
    if id in t.tasks && t.tasks[id].Review().Some? {
      OnlyDecision(t, t.tasks[id].Review().value);
    }
  }

  ghost predicate HasAcceptance(t: Tables, request: Id) {
    exists d :: d in t.decisions && d.requestId == request && d.verdict in {Approved, ApprovedWithAmendments}
  }

  lemma OnlyDecision(t: Tables, request: Id)
    requires Reviews.Inv(t)
    ensures Tasks.AcceptedFirst(t.decisions, request) <==> HasAcceptance(t, request)
  {
    if d :| d in t.decisions && d.requestId == request && d.verdict in {Approved, ApprovedWithAmendments} {
      var k :| 0 <= k < |t.decisions| && t.decisions[k] == d;
      assert Tasks.FirstOn(t.decisions, request, k);
    }
  }

  /** Between the two states the task was completed and not changed further; everything recorded as its predecessor in
      the first was finished there and still is as it was. */
  ghost predicate CompletedFrom(before: Tables, t: Tables, id: Id) {
    && id in before.tasks && before.tasks[id].status in {TaskOpen, InProgress, Blocked, AwaitingReview}
    && id in t.tasks
    && t.tasks[id] == before.tasks[id].(status := Completed, version := before.tasks[id].version + 1)
    && forall p :: (id, p) in before.dependencies ==> FinishedSince(before, t, p)
  }

  predicate FinishedSince(before: Tables, t: Tables, p: Id) {
    && p in before.tasks && before.tasks[p].status in {Completed, Cancelled}
    && p in t.tasks && t.tasks[p] == before.tasks[p]
  }

  lemma CompletionKept(before: Tables, t: Tables, after: Tables, id: Id)
    requires CompletedFrom(before, t, id) && Tasks.Follows(t, after)
    ensures CompletedFrom(before, after, id)
  {
    assert Tasks.SameTask(t.tasks[id], after.tasks[id]);
    forall p | (id, p) in before.dependencies ensures FinishedSince(before, after, p) {
      assert FinishedSince(before, t, p);
      assert Tasks.SameTask(t.tasks[p], after.tasks[p]);
    }
  }

  lemma CompletionMade(t: Tables, op: Operation, id: Id)
    requires Inv(t) && id in Step(t, op).tasks && Step(t, op).tasks[id].status == Completed
    requires id in t.tasks ==> t.tasks[id].status != Completed
    ensures op.OnTask? && op.task.Complete? && op.task.id == id && Tasks.Enabled(t, op.task)
    ensures CompletedFrom(t, Step(t, op), id)
  {
    var call := op.task;
    assert call.Complete? && call.id == id;
    CompleteExactly(t, call.actor, call.caseId, id, call.expectedVersion);
    forall p | (id, p) in t.dependencies ensures FinishedSince(t, Step(t, op), p) {
      assert p in t.tasks && p != id;
    }
  }

  /** A completed task was completed by a call of the run: everything recorded as its predecessor at that moment was
      finished then and still is, and its row has not changed since. */
  lemma {:induction false} CompletionEarned(ops: seq<Operation>, id: Id) returns (k: nat)
    requires id in Run(EMPTY, ops).tasks && Run(EMPTY, ops).tasks[id].status == Completed
    ensures Completes(ops, k, id) && CompletedFrom(Run(EMPTY, ops[..k]), Run(EMPTY, ops), id)
  {
    var n := |ops| - 1;
    var last := Run(EMPTY, ops[..n]);
    EmptyInv();
    RunKeeps(EMPTY, ops[..n]);
    if id in last.tasks && last.tasks[id].status == Completed {
      k := CompletionEarned(ops[..n], id);
      assert ops[..n][..k] == ops[..k];
      EarlierCalls(ops, n, k);
      StepKeeps(last, ops[n]);
      CompletionKept(Run(EMPTY, ops[..k]), last, Run(EMPTY, ops), id);
    } else {
      k := n;
      CompletionMade(last, ops[n], id);
    }
  }

  /** Behind a completed task that requires a professional are three calls, in this order: somebody asked for the review
      it links to, somebody else entitled to do so decided it with an acceptance, and the task was completed. */
  lemma CompletionAccepted(ops: seq<Operation>, id: Id) returns (asked: nat, decided: nat, completed: nat, review: Id)
    requires id in Run(EMPTY, ops).tasks && Run(EMPTY, ops).tasks[id].status == Completed
    requires Run(EMPTY, ops).tasks[id].requiresProfessional
    ensures var columns := Run(EMPTY, ops).tasks[id].columns;
      "reviewRequestId" in columns && columns["reviewRequestId"] == Some(review)
    ensures asked < decided < completed
    ensures Asks(ops, asked, review) && Decides(ops, decided, review) && Completes(ops, completed, id)
    ensures ops[decided].review.verdict in {Approved, ApprovedWithAmendments}
    ensures ops[decided].review.actor.id != ops[asked].review.actor.id
    ensures ops[asked].review.input.requiresProfessional ==> ops[decided].review.actor.role in {Solicitor, Adviser}
  {
    completed := CompletionEarned(ops, id);
    var before, front, op := Run(EMPTY, ops[..completed]), ops[..completed], ops[completed].task;
    EmptyInv();
    RunKeeps(EMPTY, front);
    CompleteExactly(before, op.actor, op.caseId, id, op.expectedVersion);
    review := before.tasks[id].columns["reviewRequestId"].value;
    var d :| d in before.decisions && d.requestId == review && d.verdict in {Approved, ApprovedWithAmendments};
    DecisionsExactly(front, d);
    decided :| DecidedAs(front, decided, d);
    EarlierCalls(ops, completed, decided);
    asked := DecidedByAnother(ops, decided, review);
  }

  /** The recorded decision behind a completed task that required a professional. */
  ghost predicate Backs(t: Tables, task: Task, d: Decision) {
    && d in t.decisions && task.Review() == Some(d.requestId) && d.verdict in Tasks.ACCEPTING
    && d.requestId in t.requests && Reviews.Entitled(t.requests[d.requestId], d)
  }

  /** In every reachable state a completed task that requires a professional rests on an accepting decision by somebody
      entitled to take it, a professional with a registration when the review itself required one; and however the run
      goes on, the same task still rests on the same decision. */
  lemma CompletedRestsOnDecision(ops: seq<Operation>, more: seq<Operation>, id: Id) returns (d: Decision)
    requires var t := Run(EMPTY,
                          ops); id in t.tasks && t.tasks[id].status == Completed && t.tasks[id].requiresProfessional
    ensures var t := Run(EMPTY, ops);
      && Backs(t, t.tasks[id], d)
      && (t.requests[d.requestId].requiresProfessional ==> d.role in PROFESSIONAL && !Missing(d.registration))
    ensures var t := Run(EMPTY, ops); AllHome(t) ==> t.requests[d.requestId].caseId == t.tasks[id].caseId
    ensures var t, later := Run(EMPTY, ops), Run(Run(EMPTY, ops), more);
      id in later.tasks && later.tasks[id] == t.tasks[id] && Backs(later, later.tasks[id], d)
  {
    var t := Run(EMPTY, ops);
    EmptyInv();
    RunKeeps(EMPTY, ops);
    RunKeeps(t, more);
    var later := Run(t, more);
    assert Tasks.Accepted(t, t.tasks[id]);
    Tasks.CompletedStays(t, later, id);
    var request := t.tasks[id].Review().value;
    Tasks.VerdictFound(t.decisions, request);
    var i :| 0 <= i < |t.decisions| && t.decisions[i].requestId == request
             && t.decisions[i].verdict == Tasks.VerdictOn(t.decisions, request).value;
    d := t.decisions[i];
    assert Reviews.DecisionSound(t, t.decisions[i]);
    assert later.decisions[i] == d && Reviews.DecisionSound(later, later.decisions[i]);
  }

  /** The gate asks for an acceptance, not for a professional's: where the linked review names no role, a caseworker's
      decision completes a task that requires professional review. */
  lemma CaseworkerSuffices(t: Tables, id: Id, request: Id)
    returns (decide: Reviews.Operation, complete: Tasks.Operation)
    requires Inv(t) && id in t.tasks && t.tasks[id].status in Tasks.ACTIVE && t.tasks[id].requiresProfessional
    requires Tasks.Unresolved(t, id) == {} && t.tasks[id].Review() == Some(request) && request != ""
    requires request in t.requests && t.requests[request].status in Reviews.ACTIVE
    requires t.requests[request].requiredRole.None?
    ensures decide.Decide? && decide.actor.role == Caseworker
    ensures var after := Tasks.Step(Reviews.Step(t, decide), complete);
      id in after.tasks && after.tasks[id].status == Completed && after.tasks[id].requiresProfessional
  {
    decide := Reviews.DecisionBy(t, request, Caseworker);
    complete := Tasks.Complete(decide.actor, t.tasks[id].caseId, id, t.tasks[id].version);
    Reviews.ActiveHasNoDecision(t, request);
    NewVerdict(t.decisions, Reviews.NewDecision(decide));
  }

  // ---------- whose review it is ----------

  /** The review a task links to, if any, is of the task's own case. */
  predicate LinkedHome(t: Tables, task: Task) {
    task.Review().Some? ==> task.Review().value in t.requests && t.requests[task.Review().value].caseId == task.caseId
  }

  ghost predicate AllHome(t: Tables) {
    forall id :: id in t.tasks ==> LinkedHome(t, t.tasks[id])
  }

  predicate HomeColumns(t: Tables, columns: map<string, Option<string>>, caseId: Id) {
    "reviewRequestId" in columns && columns["reviewRequestId"].Some? ==>
      columns["reviewRequestId"].value in t.requests && t.requests[columns["reviewRequestId"].value].caseId == caseId
  }

  /** Where a call links a task to a review, it is one of the call's own case. */
  predicate LinksHome(t: Tables, op: Operation) {
    match op
    case OnTask(Create(_, _, input, _)) => HomeColumns(t, input.columns, input.caseId)
    case OnTask(Update(_, caseId, _, _, changes)) => HomeColumns(t, changes, caseId)
    case _ => true
  }

  /** The code never compares the two cases: a call that goes through leaves every task linked within its case exactly
      when the review it links to, if it does, is of its case. */
  lemma HomeExactly(t: Tables, op: Operation)
    requires AllHome(t) && (op.OnTask? ==> Tasks.Enabled(t, op.task))
    ensures AllHome(Step(t, op)) <==> LinksHome(t, op)
  {
    match op {
      case OnReview(r) =>
        Reviews.StepFollows(t, r);
        StillHome(t, Step(t, op), "", {});
      case OnTask(k) => TaskHome(t, k);
      case OnDeadline(_) => StillHome(t, Step(t, op), "", {});
    }
  }

  /** Tasks whose rows a call leaves alone stay linked as they were. */
  lemma StillHome(t: Tables, after: Tables, id: Id, touched: set<Id>)
    requires AllHome(t) && touched <= {id} && after.tasks.Keys == t.tasks.Keys + touched
    requires forall x :: x in t.tasks && x !in touched ==> after.tasks[x] == t.tasks[x]
    requires forall r :: r in t.requests ==> r in after.requests && after.requests[r].caseId == t.requests[r].caseId
    ensures forall x :: x in t.tasks && x !in touched ==> LinkedHome(after, after.tasks[x])
  {
    forall x | x in t.tasks && x !in touched
      ensures LinkedHome(after, after.tasks[x])
    {
      assert LinkedHome(t, t.tasks[x]);
    }
  }

  lemma TaskHome(t: Tables, k: Tasks.Operation)
    requires AllHome(t) && Tasks.Enabled(t, k)
    ensures AllHome(Tasks.Effect(t, k)) <==> LinksHome(t, OnTask(k))
  {
    var after := Tasks.Effect(t, k);
    assert k.id in after.tasks && (k.id in t.tasks ==> LinkedHome(t, t.tasks[k.id]));
    StillHome(t, after, k.id, {k.id});
    assert LinkedHome(after, after.tasks[k.id]) <==> LinksHome(t, OnTask(k));
  }

  ghost predicate AllLinkHome(t: Tables, ops: seq<Operation>) {
    forall k :: 0 <= k < |ops| ==> LinksHome(Run(t, ops[..k]), ops[k])
  }

  lemma {:induction false} RunHome(t: Tables, ops: seq<Operation>)
    requires AllHome(t) && AllLinkHome(t, ops)
    ensures AllHome(Run(t, ops))
  {
    if ops != [] {
      var n := |ops| - 1;
      forall k | 0 <= k < n
        ensures LinksHome(Run(t, ops[..n][..k]), ops[..n][k])
      {
        assert ops[..n][..k] == ops[..k] && LinksHome(Run(t, ops[..k]), ops[k]);
      }
      RunHome(t, ops[..n]);
      assert LinksHome(Run(t, ops[..n]), ops[n]);
      if !ops[n].OnTask? || Tasks.Enabled(Run(t, ops[..n]), ops[n].task) { HomeExactly(Run(t, ops[..n]), ops[n]); }
    }
  }

  /** So an accepting decision on a review of any case will do: link the task to it, and complete. */
  lemma ReviewOfAnotherCase(t: Tables, id: Id, request: Id, actor: Actor)
      returns (link: Tasks.Operation, complete: Tasks.Operation)
    requires id in t.tasks && t.tasks[id].status in Tasks.ACTIVE && t.tasks[id].requiresProfessional && MayWrite(actor)
    requires Tasks.Unresolved(t, id) == {} && request != "" && request in t.requests
    requires t.requests[request].caseId != t.tasks[id].caseId
    requires var verdict := Tasks.VerdictOn(t.decisions, request); verdict.Some? && verdict.value in Tasks.ACCEPTING
    ensures var after := Tasks.Step(Tasks.Step(t, link), complete);
      && id in after.tasks && after.tasks[id].status == Completed && after.tasks[id].requiresProfessional
      && after.tasks[id].Review() == Some(request) && after.requests[request].caseId != after.tasks[id].caseId
  {
    var task := t.tasks[id];
    link := Tasks.Update(actor, task.caseId, id, task.version, map["reviewRequestId" := Some(request)]);
    assert link.changes != map[] by { assert "reviewRequestId" in link.changes; }
    complete := Tasks.Complete(actor, task.caseId, id, task.version + 1);
    var linked := Tasks.Step(t, link);
    assert linked.tasks[id].Review() == Some(request);
    assert Tasks.Unresolved(linked, id) == {} by {
      forall e | e in t.dependencies && e.0 == id && e.1 in t.tasks
        ensures Tasks.Finished(linked.tasks[e.1])
      {
        assert e.1 in t.tasks && (Tasks.Finished(t.tasks[e.1]) || e.1 in Tasks.Unresolved(t, id));
      }
    }
  }

  lemma NewVerdict(decisions: seq<Decision>, d: Decision)
    requires forall i :: 0 <= i < |decisions| ==> decisions[i].requestId != d.requestId
    ensures Tasks.VerdictOn(decisions + [d], d.requestId) == Some(d.verdict)
  {
    Tasks.VerdictFound(decisions + [d], d.requestId);
    assert (decisions + [d])[|decisions|] == d;
  }
}
