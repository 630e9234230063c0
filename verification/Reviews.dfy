/** The review repository (packages/repositories/src/review.ts and review-model.ts). */
module Reviews {
  import opened Prelude
  import opened CaseTables

  datatype RequestInput = RequestInput(caseId: Id, subjectId: string, subjectDigest: Option<string>, reason: string,
                                       requiresProfessional: bool, reservedActivity: Option<string>,
                                       requiredRole: Option<Role>, assignTo: Option<Id>,
                                       due: Option<Id>)

  datatype Operation =
    | Ask(actor: Actor, id: Id, input: RequestInput)
    | Decide(actor: Actor, caseId: Id, id: Id, expectedVersion: int, verdict: Verdict, basis: string, digest: string)
    | Reassign(actor: Actor, caseId: Id, id: Id, expectedVersion: int, assignTo: Option<Id>)
    | Withdraw(actor: Actor, caseId: Id, id: Id, expectedVersion: int, reason: string)

  // ---------- the domain rules ----------

  const MAY_DECIDE: set<Role> := {Caseworker, Adviser, Solicitor, Reviewer, Admin}
  const ACTIVE: set<ReviewStatus> := {Open, AwaitingMaterial}

  /** 64 lower-case hexadecimal characters. */
  predicate IsDigest(s: string) {
    |s| == 64 && forall i :: 0 <= i < 64 ==> '0' <= s[i] <= '9' || 'a' <= s[i] <= 'f'
  }

  predicate Stated(s: Option<string>) {
    s.Some? && s.value != ""
  }

  /** Why this actor may not decide this request, if they may not. */
  function MayDecide(r: Request, actor: Actor): Option<string> {
    if actor.role !in MAY_DECIDE then Some("role")
    else if actor.id == r.requestedBy then Some("requester")
    else if r.requiresProfessional && actor.role !in PROFESSIONAL then Some("not a professional")
    else if r.requiresProfessional && Missing(actor.registration) then Some("no registration")
    else if Stated(r.reservedActivity) && !r.requiresProfessional then Some("reserved activity")
    else if r.requiredRole.Some? && r.requiredRole.value != actor.role then Some("required role")
    else None
  }

  predicate ValidRequest(input: RequestInput) {
    && !Blank(input.subjectId) && !Blank(input.reason)
    && (input.subjectDigest.Some? ==> IsDigest(input.subjectDigest.value))
    && (Stated(input.reservedActivity) ==> input.requiresProfessional)
    && (input.requiresProfessional ==> input.requiredRole in {Some(Solicitor), Some(Adviser)})
  }

  /** The table's own constraints on a request. */
  predicate RequestAllowed(r: Request) {
    && (r.reservedActivity.Some? ==> r.requiresProfessional)
    && (r.requiresProfessional ==> r.requiredRole in {Some(Solicitor), Some(Adviser)})
    && r.requiredRole != Some(Client)
  }

  /** The deadline a request is due by, if it names one, is recorded. */
  predicate DueKnown(t: Tables, input: RequestInput) {
    input.due.Some? ==> input.due.value in t.deadlines
  }

  /** The table's own constraints on a decision: at most one per request, and a solicitor's cites a registration. */
  predicate DecisionAllowed(decisions: seq<Decision>, d: Decision) {
    && (forall i :: 0 <= i < |decisions| ==> decisions[i].requestId != d.requestId)
    && (d.role == Solicitor ==> d.registration.Some?)
  }

  // ---------- what each call does ----------

  predicate InCase(t: Tables, id: Id, caseId: Id) {
    id in t.requests && t.requests[id].caseId == caseId
  }

  function NewRequest(op: Operation): Request
    requires op.Ask?
  {
    var input := op.input;
    Request(input.caseId, input.requiresProfessional, input.reservedActivity, input.requiredRole, op.actor.id,
            input.assignTo, Open, 1)
  }

  function NewDecision(op: Operation): Decision
    requires op.Decide?
  {
    Decision(op.id, op.verdict, op.basis, op.actor.id, op.actor.role, op.actor.registration, op.digest)
  }

  /** A request may be written to: it is in the case, still active, and at the version the caller read. */
  predicate Writable(t: Tables, id: Id, caseId: Id, expectedVersion: int) {
    InCase(t, id, caseId) && t.requests[id].status in ACTIVE && t.requests[id].version == expectedVersion
  }

  predicate Enabled(t: Tables, op: Operation) {
    MayWrite(op.actor) &&
    match op
    case Ask(_, id, input) =>
      && ValidRequest(input) && id !in t.requests && RequestAllowed(NewRequest(op)) && DueKnown(t, input)
    case Decide(actor, caseId, id, v, verdict, basis, digest) =>
      && !Blank(basis) && IsDigest(digest) && Writable(t, id, caseId, v)
      && MayDecide(t.requests[id], actor).None? && DecisionAllowed(t.decisions, NewDecision(op))
    case Reassign(_, caseId, id, v, _) => Writable(t, id, caseId, v)
    case Withdraw(_, caseId, id, v, reason) => !Blank(reason) && Writable(t, id, caseId, v)
  }

  function Effect(t: Tables, op: Operation): Tables
    requires Enabled(t, op)
  {
    match op
    case Ask(_, id, _) => t.(requests := t.requests[id := NewRequest(op)])
    case Decide(_, _, id, _, _, _, _) =>
      var r := t.requests[id];
      t.(requests := t.requests[id := r.(status := Decided, version := r.version + 1)],
         decisions := t.decisions + [NewDecision(op)])
    case Reassign(_, _, id, _, to) =>
      var r := t.requests[id];
      t.(requests := t.requests[id := r.(assignedTo := to, version := r.version + 1)])
    case Withdraw(_, _, id, _, _) =>
      var r := t.requests[id];
      t.(requests := t.requests[id := r.(status := Withdrawn, version := r.version + 1)])
  }

  function Step(t: Tables, op: Operation): Tables {
    if Enabled(t, op) then Effect(t, op) else t
  }

  // ---------- which answer a call gets ----------

  /** Why a change that is not a decision is not made, in the order the checks are made. */
  function WriteRefusal(t: Tables, actor: Actor, caseId: Id, id: Id, expectedVersion: int): Option<Refusal> {
    if !MayWrite(actor) then Some(RefusalFor(actor))
    else if !InCase(t, id, caseId) then Some(NotPersisted)
    else if t.requests[id].status !in ACTIVE || t.requests[id].version != expectedVersion then Some(Conflict)
    else None
  }

  /** Why a call is refused when no statement fails of itself. */
  function RefusalOf(t: Tables, op: Operation): Option<Refusal> {
    match op
    case Ask(actor, id, input) =>
      if !ValidRequest(input) then Some(Invalid)
      else if !MayWrite(actor) then Some(RefusalFor(actor))
      else if id in t.requests || !RequestAllowed(NewRequest(op)) || !DueKnown(t, input) then Some(Unreachable)
      else None
    case Decide(actor, caseId, id, v, _, basis, digest) =>
      if Blank(basis) || !IsDigest(digest) then Some(Invalid)
      else if !MayWrite(actor) then Some(RefusalFor(actor))
      else if !InCase(t, id, caseId) then Some(NotPersisted)
      else if MayDecide(t.requests[id], actor).Some? then Some(Forbidden)
      else if t.requests[id].status !in ACTIVE || t.requests[id].version != v then Some(Conflict)
      else if !DecisionAllowed(t.decisions, NewDecision(op)) then Some(Unreachable)
      else None
    case Reassign(actor, caseId, id, v, _) => WriteRefusal(t, actor, caseId, id, v)
    case Withdraw(actor, caseId, id, v, reason) =>
      if Blank(reason) then Some(Invalid) else WriteRefusal(t, actor, caseId, id, v)
  }

  lemma RefusedExactly(t: Tables, op: Operation)
    ensures RefusalOf(t, op).None? <==> Enabled(t, op)
  {
  }

  /** An outsider is told nothing about what is recorded, and somebody working in one case nothing about another's; to
      both it is as if what they ask for did not exist. Only a member who may not write is told so. */
  lemma HiddenAlike(t: Tables, u: Tables, op: Operation)
    requires !op.actor.belongs || (!op.Ask? && !InCase(t, op.id, op.caseId) && !InCase(u, op.id, op.caseId))
    ensures RefusalOf(t, op) == RefusalOf(u, op)
    ensures RefusalOf(t, op) in if !op.actor.belongs || Writer(op.actor) then {Some(Invalid), Some(NotPersisted)}
                                else {Some(Invalid), Some(Forbidden)}
  {
  }

  /** 64 characters, each one of the sixteen. */
  predicate Hexadecimal(s: string) {
    |s| == 64 && forall i :: 0 <= i < |s| ==> s[i] in "0123456789abcdef"
  }

  /** When each call goes through; for a decision see `DecidesExactly`. A request names a subject and a reason, gives a
      digest, if it does, as one, and reserves an activity only for a professional: then it names a solicitor or an
      adviser. A role nobody who may write has cannot be named, except the reviewer's. */
  lemma EnabledExactly(t: Tables, op: Operation)
    ensures op.Ask? ==>
      (Enabled(t, op) <==>
         && Writer(op.actor) && op.id !in t.requests && !Blank(op.input.subjectId) && !Blank(op.input.reason)
         && (op.input.subjectDigest.Some? ==> Hexadecimal(op.input.subjectDigest.value))
         && (op.input.reservedActivity.Some? ==> op.input.requiresProfessional)
         && (op.input.requiresProfessional ==> op.input.requiredRole in {Some(Solicitor), Some(Adviser)})
         && op.input.requiredRole != Some(Client) && (op.input.due.Some? ==> op.input.due.value in t.deadlines))
    ensures op.Reassign? || op.Withdraw? ==>
      (Enabled(t, op) <==>
         && Writer(op.actor) && op.id in t.requests && t.requests[op.id].caseId == op.caseId
         && t.requests[op.id].status in {Open, AwaitingMaterial} && t.requests[op.id].version == op.expectedVersion
         && (op.Withdraw? ==> !Blank(op.reason)))
  {
    if op.Ask? && op.input.subjectDigest.Some? { DigestExactly(op.input.subjectDigest.value); }
  }

  lemma DigestExactly(s: string)
    ensures IsDigest(s) <==> Hexadecimal(s)
  {
    var digits := "0123456789abcdef";
    forall c: char ensures '0' <= c <= '9' || 'a' <= c <= 'f' <==> c in digits {
      if '0' <= c <= '9' { assert c == digits[c as int - '0' as int]; }
      if 'a' <= c <= 'f' { assert c == digits[c as int - 'a' as int + 10]; }
    }
  }

  // ---------- what every state keeps ----------

  ghost predicate HasDecision(t: Tables, id: Id) {
    exists i :: 0 <= i < |t.decisions| && t.decisions[i].requestId == id
  }

  /** The decision was taken by somebody entitled to take it on this request. */
  predicate Entitled(r: Request, d: Decision) {
    && d.decidedBy != r.requestedBy && d.role in MAY_WRITE
    && (r.requiresProfessional ==> d.role in PROFESSIONAL && Some(d.role) == r.requiredRole && !Missing(d.registration))
    && (r.reservedActivity.Some? ==> r.requiresProfessional)
    && (r.requiredRole.Some? ==> r.requiredRole == Some(d.role))
  }

  predicate DecisionSound(t: Tables, d: Decision) {
    && d.requestId in t.requests && t.requests[d.requestId].status == Decided
    && Entitled(t.requests[d.requestId], d) && !Blank(d.basis) && IsDigest(d.digest)
  }

  /** A request has a decision exactly when its status says so, never more than one, each soundly taken. */
  ghost predicate Inv(t: Tables) {
    && (forall id :: id in t.requests ==> (t.requests[id].status == Decided <==> HasDecision(t, id)))
    && (forall i :: 0 <= i < |t.decisions| ==> DecisionSound(t, t.decisions[i]))
    && (forall i, j :: 0 <= i < j < |t.decisions| ==> t.decisions[i].requestId != t.decisions[j].requestId)
    && (forall id :: id in t.requests ==> RequestAllowed(t.requests[id]))
  }

  lemma StepKeepsInv(t: Tables, op: Operation)
    requires Inv(t)
    ensures Inv(Step(t, op))
  {
    if Enabled(t, op) {
      match op {
        case Ask(_, id, _) => AskKeepsInv(t, op);
        case Decide(_, _, id, _, _, _, _) => DecideKeepsInv(t, op);
        case _ => TouchKeepsInv(t, op);
      }
    }
  }

  lemma AskKeepsInv(t: Tables, op: Operation)
    requires Inv(t) && op.Ask? && Enabled(t, op)
    ensures Inv(Effect(t, op))
  {
    var after := Effect(t, op);
    forall i | 0 <= i < |t.decisions|
      ensures DecisionSound(after, t.decisions[i]) && t.decisions[i].requestId != op.id
    {
      assert DecisionSound(t, t.decisions[i]);
    }
    forall id | id in after.requests
      ensures after.requests[id].status == Decided <==> HasDecision(after, id)
    {
      assert HasDecision(after, id) <==> HasDecision(t, id);
    }
  }

  lemma DecideKeepsInv(t: Tables, op: Operation)
    requires Inv(t) && op.Decide? && Enabled(t, op)
    ensures Inv(Effect(t, op))
  {
    var after, d := Effect(t, op), NewDecision(op);
    var n := |t.decisions|;
    forall i | 0 <= i <= n ensures DecisionSound(after, after.decisions[i]) {
      if i < n {
        assert DecisionSound(t, t.decisions[i]);
      } else {
        assert RequestAllowed(t.requests[op.id]);
      }
    }
    forall id | id in after.requests
      ensures after.requests[id].status == Decided <==> HasDecision(after, id)
    {
      if id == op.id {
        assert after.decisions[n].requestId == id;
      } else {
        assert HasDecision(t, id) ==> HasDecision(after, id) by {
          if i :| 0 <= i < n && t.decisions[i].requestId == id { assert after.decisions[i].requestId == id; }
        }
        assert HasDecision(after, id) ==> HasDecision(t, id);
      }
    }
  }

  lemma TouchKeepsInv(t: Tables, op: Operation)
    requires Inv(t) && (op.Reassign? || op.Withdraw?) && Enabled(t, op)
    ensures Inv(Effect(t, op))
  {
    var after := Effect(t, op);
    forall i | 0 <= i < |t.decisions| ensures DecisionSound(after, t.decisions[i]) {
      assert DecisionSound(t, t.decisions[i]);
    }
    forall id | id in after.requests
      ensures after.requests[id].status == Decided <==> HasDecision(after, id)
    {
      assert HasDecision(after, id) <==> HasDecision(t, id);
    }
    assert RequestAllowed(t.requests[op.id]);
  }

  /** The unique index on decisions is never what refuses one: an active request has none. */
  lemma ActiveHasNoDecision(t: Tables, id: Id)
    requires Inv(t) && id in t.requests && t.requests[id].status in ACTIVE
    ensures forall i :: 0 <= i < |t.decisions| ==> t.decisions[i].requestId != id
  {
    assert !HasDecision(t, id);
  }

  // ---------- what no later call undoes ----------

  /** Requests keep everything authority was judged on, versions only rise, and decisions only accumulate. */
  ghost predicate Follows(before: Tables, after: Tables) {
    && before.decisions <= after.decisions
    && (forall id :: id in before.requests ==>
          id in after.requests && SameTerms(before.requests[id], after.requests[id]))
  }

  predicate SameTerms(r: Request, s: Request) {
    && r.caseId == s.caseId && r.requestedBy == s.requestedBy && r.requiresProfessional == s.requiresProfessional
    && r.reservedActivity == s.reservedActivity && r.requiredRole == s.requiredRole && r.version <= s.version
  }

  lemma StepFollows(t: Tables, op: Operation)
    ensures Follows(t, Step(t, op))
  {
  }

  lemma FollowsTrans(a: Tables, b: Tables, c: Tables)
    requires Follows(a, b) && Follows(b, c)
    ensures Follows(a, c)
  {
    forall id | id in a.requests
      ensures id in c.requests && SameTerms(a.requests[id], c.requests[id])
    {
      assert SameTerms(a.requests[id], b.requests[id]) && SameTerms(b.requests[id], c.requests[id]);
    }
  }

  predicate Writes(op: Operation, id: Id, version: int) {
    !op.Ask? && op.id == id && op.expectedVersion == version
  }

  /** A version token is spent by the write that succeeds with it: whatever happens next, no other write carrying it
      can succeed. */
  lemma TokenSpent(before: Tables, op: Operation, later: Tables, again: Operation, id: Id, version: int)
    requires Enabled(before, op) && Writes(op, id, version) && Writes(again, id, version)
    requires Follows(Effect(before, op), later)
    ensures !Enabled(later, again)
  {
    assert SameTerms(Effect(before, op).requests[id], later.requests[id]);
  }

  /** A decision nothing else speaks against is lost to a table constraint exactly when a solicitor with no registration
      takes it; the call is then answered as if the database could not be reached. */
  lemma UnreachableExactly(t: Tables, op: Operation)
    requires Inv(t) && op.Decide? && MayWrite(op.actor) && !Blank(op.basis) && IsDigest(op.digest)
    requires Writable(t, op.id, op.caseId, op.expectedVersion) && MayDecide(t.requests[op.id], op.actor).None?
    ensures RefusalOf(t, op) == Some(Unreachable) <==> op.actor.role == Solicitor && op.actor.registration.None?
  {
    ActiveHasNoDecision(t, op.id);
  }

  /** What taking a decision asks: a caller of the workspace in a writing role who did not ask for the review, a stated
      basis, a digest of 64 hexadecimal characters, and a request of the case that is undecided and at that version and
      leaves the caller's role open or names it; where it requires a professional, the caller cites a registration, and
      a solicitor cites one on any request. */
  lemma DecidesExactly(t: Tables, actor: Actor, caseId: Id, id: Id, version: int, verdict: Verdict, basis: string,
                       digest: string)
    requires Inv(t)
    ensures Enabled(t, Decide(actor, caseId, id, version, verdict, basis, digest)) <==>
      && actor.belongs && actor.role in {Caseworker, Adviser, Solicitor, Admin}
      && !Blank(basis) && Hexadecimal(digest)
      && id in t.requests && t.requests[id].caseId == caseId && t.requests[id].version == version
      && t.requests[id].status in {Open, AwaitingMaterial}
      && actor.id != t.requests[id].requestedBy && t.requests[id].requiredRole in {None, Some(actor.role)}
      && (t.requests[id].requiresProfessional ==>
            actor.role in {Solicitor, Adviser} && actor.registration.Some? && !Blank(actor.registration.value))
      && (actor.role == Solicitor ==> actor.registration.Some?)
  {
    DigestExactly(digest);
    if id in t.requests && t.requests[id].status in ACTIVE {
      assert RequestAllowed(t.requests[id]);
      ActiveHasNoDecision(t, id);
    }
  }

  /** To a writer whose call makes sense, about a request of the case: a decision that is not theirs to take is
      forbidden, whatever state the request is in, and anything else is a conflict, but for a solicitor who cites no
      registration. */
  lemma ToldExactly(t: Tables, op: Operation)
    requires Inv(t) && Writer(op.actor) && !op.Ask? && op.id in t.requests && t.requests[op.id].caseId == op.caseId
    requires op.Decide? ==> !Blank(op.basis) && Hexadecimal(op.digest)
    requires op.Withdraw? ==> !Blank(op.reason)
    ensures var r := t.requests[op.id];
      RefusalOf(t, op) ==
        if op.Decide? && (op.actor.id == r.requestedBy || r.requiredRole !in {None, Some(op.actor.role)}
                          || (r.requiresProfessional && Missing(op.actor.registration)))
        then Some(Forbidden)
        else if r.status !in {Open, AwaitingMaterial} || r.version != op.expectedVersion then Some(Conflict)
        else if op.Decide? && op.actor.role == Solicitor && op.actor.registration.None? then Some(Unreachable)
        else None
  {
    assert RequestAllowed(t.requests[op.id]);
    if op.Decide? {
      DigestExactly(op.digest);
      if t.requests[op.id].status in ACTIVE { ActiveHasNoDecision(t, op.id); }
    }
  }

  lemma WritingRoles(role: Role)
    ensures role in MAY_WRITE <==> role != Client && role != Reviewer
  {
    match role {
      case Client =>
      case Caseworker =>
      case Adviser =>
      case Solicitor =>
      case Reviewer =>
      case Admin =>
    }
  }

  /** An active request can be decided by somebody exactly when it does not name the reviewer role: that role may
      decide, but may not write to a case. */
  lemma DecidableExactly(t: Tables, id: Id)
    requires Inv(t) && id in t.requests && t.requests[id].status in ACTIVE
    ensures (exists op: Operation :: op.Decide? && op.id == id && Enabled(t, op))
       <==> t.requests[id].requiredRole != Some(Reviewer)
  {
    var r := t.requests[id];
    assert RequestAllowed(r);
    if r.requiredRole != Some(Reviewer) {
      WritingRoles(r.requiredRole.GetOr(Caseworker));
      var op := DecisionBy(t, id, r.requiredRole.GetOr(Caseworker));
    }
  }

  /** Such requests can be made: naming the reviewer role is refused by nothing but an empty reserved activity. */
  lemma ReviewerMayBeNamed(t: Tables, op: Operation)
    requires op.Ask? && MayWrite(op.actor) && ValidRequest(op.input) && op.id !in t.requests
    requires op.input.requiredRole == Some(Reviewer) && DueKnown(t, op.input)
    ensures Enabled(t, op) <==> op.input.reservedActivity != Some("")
  {
  }

  /** And stay undecided for good. */
  lemma ReviewerRoleNeverDecides(t: Tables, id: Id)
    requires Inv(t) && id in t.requests && t.requests[id].requiredRole == Some(Reviewer)
    ensures t.requests[id].status != Decided
  {
    forall i | 0 <= i < |t.decisions|
      ensures t.decisions[i].requestId != id
    {
      assert DecisionSound(t, t.decisions[i]);
    }
    assert !HasDecision(t, id);
  }

  /** Somebody who is not a regulated professional can decide an active request exactly when it asks for no particular
      role, or for one of the other roles that may write to a case. */
  lemma NonProfessionalExactly(t: Tables, id: Id)
    requires Inv(t) && id in t.requests && t.requests[id].status in ACTIVE
    ensures (exists op: Operation :: op.Decide? && op.id == id && op.actor.role !in PROFESSIONAL && Enabled(t, op))
       <==> t.requests[id].requiredRole in {None, Some(Caseworker), Some(Admin)}
  {
    var r := t.requests[id];
    assert RequestAllowed(r);
    if r.requiredRole in {None, Some(Caseworker), Some(Admin)} {
      var op := DecisionBy(t, id, r.requiredRole.GetOr(Caseworker));
    }
  }

  /** An approval by somebody other than the requester, in a role the request does not rule out. */
  lemma DecisionBy(t: Tables, id: Id, role: Role) returns (op: Operation)
    requires Inv(t) && id in t.requests && t.requests[id].status in ACTIVE
    requires role in MAY_WRITE && t.requests[id].requiredRole in {None, Some(role)}
    ensures op.Decide? && op.id == id && op.actor.role == role && op.verdict == Approved && Enabled(t, op)
  {
    var r := t.requests[id];
    assert RequestAllowed(r);
    ActiveHasNoDecision(t, id);
    var actor := Actor(r.requestedBy + "'", role, Some("n"), true);
    assert !IsSpace("n"[0]);
    assert |actor.id| != |r.requestedBy| && MayDecide(r, actor).None?;
    assert !IsSpace("b"[0]);
    op := Decide(actor, r.caseId, id, r.version, Approved, "b", seq(64, _ => 'a'));
  }

  // ---------- the repository ----------

  class ReviewRepository {
    const db: Database

    constructor (db: Database)
      ensures this.db == db
    {
      this.db := db;
    }

    method CreateReviewRequest(actor: Actor, input: RequestInput, newId: Id, fault: bool)
      returns (r: Result<Request, Refusal>)
      modifies db
      ensures r.Success? <==> !fault && Enabled(old(db.tables), Ask(actor, newId, input))
      ensures r.Failure? ==>
        Some(r.error) == RefusalOf(old(db.tables), Ask(actor, newId, input)) || (fault && r.error == Unreachable)
      ensures db.tables == if r.Success? then Effect(old(db.tables), Ask(actor, newId, input)) else old(db.tables)
      ensures r.Success? ==>
        && r.value == Request(input.caseId, input.requiresProfessional, input.reservedActivity, input.requiredRole,
                              actor.id, input.assignTo, Open, 1)
        && db.tables == old(db.tables).(requests := old(db.tables).requests[newId := r.value])
    {
      if !ValidRequest(input) { return Failure(Invalid); }
      if !MayWrite(actor) { return Failure(RefusalFor(actor)); }
      var row := Request(input.caseId, input.requiresProfessional, input.reservedActivity, input.requiredRole, actor.id,
                         input.assignTo, Open, 1);
      if fault || newId in db.tables.requests || !RequestAllowed(row) || !DueKnown(db.tables, input) {
        return Failure(Unreachable);
      }
      db.tables := db.tables.(requests := db.tables.requests[newId := row]);
      return Success(row);
    }

    /** The decision row is written before the request's status moves; if either cannot be, neither is. */
    method RecordReviewDecision(actor: Actor, caseId: Id, id: Id, expectedVersion: int, verdict: Verdict, basis: string,
                                digest: string, fault: bool) returns (r: Result<(Request, Decision), Refusal>)
      modifies db
      ensures r.Success? <==>
        !fault && Enabled(old(db.tables), Decide(actor, caseId, id, expectedVersion, verdict, basis, digest))
      ensures db.tables == if r.Success?
                           then Effect(old(db.tables),
                                       Decide(actor, caseId, id, expectedVersion, verdict, basis, digest))
                           else old(db.tables)
      ensures r.Failure? ==>
        || Some(r.error) == RefusalOf(old(db.tables),
                                      Decide(actor, caseId, id, expectedVersion, verdict, basis, digest))
        || (fault && r.error == Unreachable)
      ensures r.Success? ==>
        && r.value.1 == Decision(id, verdict, basis, actor.id, actor.role, actor.registration, digest)
        && r.value.0 == old(db.tables).requests[id].(status := Decided, version := expectedVersion + 1)
        && db.tables == old(db.tables).(requests := old(db.tables).requests[id := r.value.0],
                                        decisions := old(db.tables).decisions + [r.value.1])
    {
      if Blank(basis) { return Failure(Invalid); }
      if !IsDigest(digest) { return Failure(Invalid); }
      if !MayWrite(actor) { return Failure(RefusalFor(actor)); }
      if !InCase(db.tables, id, caseId) { return Failure(NotPersisted); }
      var request := db.tables.requests[id];
      if MayDecide(request, actor).Some? { return Failure(Forbidden); }
      if request.status !in ACTIVE { return Failure(Conflict); }
      if request.version != expectedVersion { return Failure(Conflict); }
      var begun := db.tables;
      var decision := Decision(id, verdict, basis, actor.id, actor.role, actor.registration, digest);
      if !DecisionAllowed(db.tables.decisions, decision) { return Failure(Unreachable); }
      db.tables := db.tables.(decisions := db.tables.decisions + [decision]);
      if fault {
        db.tables := begun;
        return Failure(Unreachable);
      }
      var decided := request.(status := Decided, version := request.version + 1);
      db.tables := db.tables.(requests := db.tables.requests[id := decided]);
      return Success((decided, decision));
    }

    method ReassignReview(actor: Actor, caseId: Id, id: Id, expectedVersion: int, assignTo: Option<Id>, fault: bool)
      returns (r: Result<Request, Refusal>)
      modifies db
      ensures r.Success? <==> !fault && Enabled(old(db.tables), Reassign(actor, caseId, id, expectedVersion, assignTo))
      ensures db.tables == if r.Success?
                           then Effect(old(db.tables), Reassign(actor, caseId, id, expectedVersion, assignTo))
                           else old(db.tables)
      ensures r.Failure? ==>
        || Some(r.error) == RefusalOf(old(db.tables), Reassign(actor, caseId, id, expectedVersion, assignTo))
        || (fault && r.error == Unreachable)
      ensures r.Success? ==>
        && r.value == old(db.tables).requests[id].(assignedTo := assignTo, version := expectedVersion + 1)
        && db.tables == old(db.tables).(requests := old(db.tables).requests[id := r.value])
    {
      r := Transition(actor, caseId, id, expectedVersion, (request: Request) => request.(assignedTo := assignTo),
                      fault);
    }

    method WithdrawReviewRequest(actor: Actor, caseId: Id, id: Id, expectedVersion: int, reason: string, fault: bool)
      returns (r: Result<Request, Refusal>)
      modifies db
      ensures r.Success? <==> !fault && Enabled(old(db.tables), Withdraw(actor, caseId, id, expectedVersion, reason))
      ensures db.tables == if r.Success?
                           then Effect(old(db.tables), Withdraw(actor, caseId, id, expectedVersion, reason))
                           else old(db.tables)
      ensures r.Failure? ==>
        || Some(r.error) == RefusalOf(old(db.tables), Withdraw(actor, caseId, id, expectedVersion, reason))
        || (fault && r.error == Unreachable)
      ensures r.Success? ==>
        && r.value == old(db.tables).requests[id].(status := Withdrawn, version := expectedVersion + 1)
        && db.tables == old(db.tables).(requests := old(db.tables).requests[id := r.value])
    {
      if Blank(reason) { return Failure(Invalid); }
      r := Transition(actor, caseId, id, expectedVersion, (request: Request) => request.(status := Withdrawn), fault);
    }

    /** The shape of every change that is not a decision. */
    method Transition(actor: Actor, caseId: Id, id: Id, expectedVersion: int, change: Request -> Request, fault: bool)
      returns (r: Result<Request, Refusal>)
      modifies db
      ensures r.Success? <==> !fault && WriteRefusal(old(db.tables), actor, caseId, id, expectedVersion).None?
      ensures r.Failure? ==>
        || Some(r.error) == WriteRefusal(old(db.tables), actor, caseId, id, expectedVersion)
        || (fault && r.error == Unreachable)
      ensures r.Failure? ==> db.tables == old(db.tables)
      ensures r.Success? ==>
          var was := old(db.tables.requests[id]);
          && r.value == change(was).(version := was.version + 1)
          && db.tables == old(db.tables).(requests := old(db.tables).requests[id := r.value])
    {
      if !MayWrite(actor) { return Failure(RefusalFor(actor)); }
      if !InCase(db.tables, id, caseId) { return Failure(NotPersisted); }
      var request := db.tables.requests[id];
      if request.status !in ACTIVE { return Failure(Conflict); }
      if request.version != expectedVersion { return Failure(Conflict); }
      if fault { return Failure(Unreachable); }
      var updated := change(request).(version := request.version + 1);
      db.tables := db.tables.(requests := db.tables.requests[id := updated]);
      return Success(updated);
    }
  }
}
