/** The deadline repository (packages/repositories/src/deadline.ts and deadline-model.ts): deadlines are replaced, never
    edited, and a date is authoritative only when it earns it. Times of writing are microseconds; the concurrency token
    is the same instant in milliseconds. */
module Deadlines {
  import opened Prelude
  import opened CaseTables
  import Digraph

  datatype Classification =
    | Statutory | TribunalDirected | HomeOfficeDirected | Contractual | InternalTarget | EligibilityMonitoring
  datatype SourceType = Document | Correspondence | Legislation | Direction | ClientStated | Calculated | UnknownSource
  datatype Certainty = Exact | CalculatedDate | Estimated | UnknownCertainty
  datatype Verification = Unverified | SourceMatched | ProfessionalConfirmed | Disputed | SupersededDate
  datatype Status = Open | Met | Missed | Superseded | Withdrawn

  /** What is recorded about a deadline and never changed again. */
  datatype Terms = Terms(caseId: Id, kind: string, at: string, timezone: string, classification: Classification,
                         sourceType: SourceType,
                         sourceId: Option<string>, certainty: Certainty, recordedBy: Id, supersedes: Option<Id>)

  datatype Deadline = Deadline(terms: Terms, locator: Option<string>, verification: Verification,
                               verifiedBy: Option<Id>,
                               status: Status, updatedAt: int)

  /** `readable` says whether the date and the timezone are ones this system can read. */
  datatype Input = Input(kind: string, at: string, timezone: Option<string>, readable: bool,
                         classification: Classification, sourceType: SourceType, sourceId: Option<string>,
                         locator: Option<string>, certainty: Certainty)

  datatype Operation =
    | Create(actor: Actor, caseId: Id, id: Id, input: Input, now: int)
    | Supersede(actor: Actor, caseId: Id, id: Id, target: Id, reason: string, input: Input, now: int)
    | Verify(actor: Actor, caseId: Id, target: Id, state: Verification, basis: string, locator: Option<string>,
             token: int, now: int)

  type Rows = map<Id, Deadline>

  // ---------- the authority rule ----------

  const BINDING: set<Classification> := {Statutory, TribunalDirected, HomeOfficeDirected, Contractual}

  datatype Resolution = Resolved | Unreferenced | Dangling

  datatype Withheld =
    | BindsNobody | Replaced | WasWithdrawn | InDispute | DateSuperseded | NoSource | NoLocator | DanglingSource
    | NotMatched

  function Resolve(d: Deadline, known: set<string>): Resolution {
    if d.terms.sourceId.GetOr("") == "" then Unreferenced
    else if d.terms.sourceId.value in known then Resolved else Dangling
  }

  /** Why a deadline may not be presented as authoritative, if it may not. */
  function WithheldBecause(d: Deadline, known: set<string>): Option<Withheld> {
    if d.terms.classification !in BINDING then Some(BindsNobody)
    else if d.status == Superseded then Some(Replaced)
    else if d.status == Status.Withdrawn then Some(WasWithdrawn)
    else if d.verification == Disputed then Some(InDispute)
    else if d.verification == SupersededDate then Some(DateSuperseded)
    else if d.terms.sourceType == UnknownSource then Some(NoSource)
    else if Missing(d.locator) then Some(NoLocator)
    else if Resolve(d, known) == Dangling then Some(DanglingSource)
    else if d.verification == Unverified then Some(NotMatched)
    else None
  }

  predicate Authoritative(d: Deadline, known: set<string>) {
    WithheldBecause(d, known).None?
  }

  // ---------- what each call does ----------

  predicate ValidInput(input: Input) {
    && !Blank(input.kind) && input.readable
    && !(input.sourceType == Calculated && input.certainty == Exact)
    && (input.classification in BINDING ==> input.sourceType != UnknownSource && !Missing(input.locator))
  }

  function Milliseconds(us: int): int {
    us / 1000
  }

  const DEFAULT_TIMEZONE := "Europe/London"

  function NewRow(actor: Actor, caseId: Id, input: Input, timezone: string, supersedes: Option<Id>,
                  now: int): Deadline
  {
    Deadline(Terms(caseId, input.kind, input.at, input.timezone.GetOr(timezone), input.classification,
                   input.sourceType, input.sourceId, input.certainty,
                   actor.id, supersedes),
             input.locator, Unverified, None, Status.Open, now)
  }

  predicate InCase(rows: Rows, id: Id, caseId: Id) {
    id in rows && rows[id].terms.caseId == caseId
  }

  predicate MayConfirm(actor: Actor) {
    actor.role in PROFESSIONAL && !Missing(actor.registration)
  }

  predicate Enabled(rows: Rows, op: Operation) {
    MayWrite(op.actor) &&
    match op
    case Create(_, _, id, input, _) => ValidInput(input) && id !in rows
    case Supersede(_, caseId, id, target, reason, input, _) =>
      && !Blank(reason) && ValidInput(input) && id !in rows && InCase(rows, target, caseId)
      && rows[target].status != Superseded
    case Verify(actor, caseId, target, state, basis, _, token, _) =>
      && !Blank(basis) && state in {SourceMatched, ProfessionalConfirmed, Disputed}
      && (state == ProfessionalConfirmed ==> MayConfirm(actor))
      && InCase(rows, target, caseId) && Milliseconds(rows[target].updatedAt) == token
  }

  function Verified(d: Deadline, op: Operation): Deadline
    requires op.Verify?
  {
    d.(verification := op.state, verifiedBy := if op.state == SourceMatched then None else Some(op.actor.id),
       locator := if op.locator.Some? then op.locator else d.locator, updatedAt := Milliseconds(op.now) * 1000)
  }

  function Closed(d: Deadline, now: int): Deadline {
    d.(status := Superseded, updatedAt := Milliseconds(now) * 1000)
  }

  function Effect(rows: Rows, op: Operation): Rows
    requires Enabled(rows, op)
  {
    match op
    case Create(actor, caseId, id, input, now) => rows[id := NewRow(actor, caseId, input, DEFAULT_TIMEZONE, None, now)]
    case Supersede(actor, caseId, id, target, _, input, now) =>
      rows[id := NewRow(actor, caseId, input, rows[target].terms.timezone, Some(target),
                        now)][target := Closed(rows[target], now)]
    case Verify(_, _, target, _, _, _, _, _) => rows[target := Verified(rows[target], op)]
  }

  function Step(rows: Rows, op: Operation): Rows {
    if Enabled(rows, op) then Effect(rows, op) else rows
  }

  function Run(rows: Rows, ops: seq<Operation>): Rows {
    if ops == [] then rows else Step(Run(rows, ops[..|ops| - 1]), ops[|ops| - 1])
  }

  // ---------- which answer a call gets ----------

  /** Why a call is refused when no statement fails of itself, in the order of its checks. */
  function RefusalOf(rows: Rows, op: Operation): Option<Refusal> {
    match op
    case Create(actor, _, id, input, _) =>
      if !ValidInput(input) then Some(Invalid)
      else if !MayWrite(actor) then Some(RefusalFor(actor))
      else if id in rows then Some(Unreachable)
      else None
    case Supersede(actor, caseId, id, target, reason, input, _) =>
      if Blank(reason) || !ValidInput(input) then Some(Invalid)
      else if !MayWrite(actor) then Some(RefusalFor(actor))
      else if !InCase(rows, target, caseId) then Some(NotPersisted)
      else if rows[target].status == Superseded then Some(Conflict)
      else if id in rows then Some(Unreachable)
      else None
    case Verify(actor, caseId, target, state, basis, _, token, _) =>
      if Blank(basis) || state !in {SourceMatched, ProfessionalConfirmed, Disputed} then Some(Invalid)
      else if !MayWrite(actor) then Some(RefusalFor(actor))
      else if state == ProfessionalConfirmed && !MayConfirm(actor) then Some(Forbidden)
      else if !InCase(rows, target, caseId) then Some(NotPersisted)
      else if Milliseconds(rows[target].updatedAt) != token then Some(Conflict)
      else None
  }

  lemma RefusedExactly(rows: Rows, op: Operation)
    ensures RefusalOf(rows, op).None? <==> Enabled(rows, op)
  {
  }

  /** An outsider is told nothing about what is recorded, and somebody working in one case nothing about another's; to
      both it is as if what they ask for did not exist, unless they ask to confirm without being a professional. */
  lemma HiddenAlike(rows: Rows, others: Rows, op: Operation)
    requires !op.actor.belongs
             || (!op.Create? && !InCase(rows, op.target, op.caseId) && !InCase(others, op.target, op.caseId))
    ensures RefusalOf(rows, op) == RefusalOf(others, op)
    ensures !op.actor.belongs ==> RefusalOf(rows, op) in {Some(Invalid), Some(NotPersisted)}
    ensures Writer(op.actor) ==>
      || RefusalOf(rows, op) in {Some(Invalid), Some(NotPersisted)}
      || (op.Verify? && op.state == ProfessionalConfirmed && !MayConfirm(op.actor)
          && RefusalOf(rows, op) == Some(Forbidden))
    ensures op.actor.belongs && !Writer(op.actor) ==> RefusalOf(rows, op) in {Some(Invalid), Some(Forbidden)}
  {
  }

  /** What is asked of a new deadline: a kind, a date and timezone that can be read, no calculated date called exact,
      and for a date that binds somebody a source and where in it to look. */
  predicate Acceptable(input: Input) {
    && (exists i :: 0 <= i < |input.kind| && !IsSpace(input.kind[i])) && input.readable
    && (input.sourceType == Calculated ==> input.certainty != Exact)
    && (input.classification in {Statutory, TribunalDirected, HomeOfficeDirected, Contractual} ==>
          input.sourceType != UnknownSource && input.locator.Some? && !Blank(input.locator.value))
  }

  /** When each call goes through. */
  lemma EnabledExactly(rows: Rows, op: Operation)
    ensures op.Create? ==> (Enabled(rows, op) <==> Writer(op.actor) && Acceptable(op.input) && op.id !in rows)
    ensures op.Supersede? ==>
      (Enabled(rows, op) <==>
         && Writer(op.actor) && !Blank(op.reason) && Acceptable(op.input) && op.id !in rows && op.target in rows
         && rows[op.target].terms.caseId == op.caseId && rows[op.target].status != Superseded)
    ensures op.Verify? ==>
      (Enabled(rows, op) <==>
         && Writer(op.actor) && !Blank(op.basis) && op.state in {SourceMatched, ProfessionalConfirmed, Disputed}
         && (op.state == ProfessionalConfirmed ==>
               && op.actor.role in {Solicitor, Adviser}
               && op.actor.registration.Some? && !Blank(op.actor.registration.value))
         && op.target in rows && rows[op.target].terms.caseId == op.caseId
         && op.token * 1000 <= rows[op.target].updatedAt < (op.token + 1) * 1000)
  {
  }

  /** To a writer whose call makes sense, about a deadline of the case: a confirmation by somebody who is not a
      professional is forbidden, and what has been replaced or checked since is a conflict. */
  lemma ToldExactly(rows: Rows, op: Operation)
    requires Writer(op.actor) && !op.Create? && op.target in rows && rows[op.target].terms.caseId == op.caseId
    requires op.Supersede? ==> !Blank(op.reason) && Acceptable(op.input) && op.id !in rows
    requires op.Verify? ==> !Blank(op.basis) && op.state in {SourceMatched, ProfessionalConfirmed, Disputed}
    ensures RefusalOf(rows, op) ==
      if op.Supersede? then if rows[op.target].status == Superseded then Some(Conflict) else None
      else if op.state == ProfessionalConfirmed
              && (op.actor.role !in {Solicitor, Adviser} || Missing(op.actor.registration)) then Some(Forbidden)
      else if op.token != rows[op.target].updatedAt / 1000 then Some(Conflict) else None
  {
  }

  // ---------- supersession chains ----------

  /** From each deadline to the one that replaced it. */
  function Replacements(rows: Rows): set<(Id, Id)> {
    set id | id in rows && rows[id].terms.supersedes.Some? :: (rows[id].terms.supersedes.value, id)
  }

  predicate Replaces(rows: Rows, later: Id, earlier: Id) {
    later in rows && rows[later].terms.supersedes == Some(earlier)
  }

  predicate ReplacesAny(rows: Rows, later: Id, asked: set<Id>) {
    later in rows && rows[later].terms.supersedes.Some? && rows[later].terms.supersedes.value in asked
  }

  /** A link names an existing deadline of the same case, closed by it; nothing is replaced twice; a deadline is open or
      superseded, and superseded exactly when something replaced it; and the links never close on themselves. */
  ghost predicate Inv(rows: Rows) {
    && Digraph.Acyclic(Replacements(rows))
    && (forall id :: id in rows ==> RowSound(rows, id))
    && ReplacedOnce(rows)
  }

  ghost predicate ReplacedOnce(rows: Rows) {
    forall a, b, c :: Replaces(rows, a, c) && Replaces(rows, b, c) ==> a == b
  }

  ghost predicate RowSound(rows: Rows, id: Id)
    requires id in rows
  {
    var d := rows[id];
    && d.status in {Status.Open, Superseded}
    && (d.status == Superseded <==> exists later :: Replaces(rows, later, id))
    && (d.terms.supersedes.Some? ==> InCase(rows, d.terms.supersedes.value, d.terms.caseId))
    && (d.verifiedBy.Some? <==> d.verification in {ProfessionalConfirmed, Disputed})
    && d.verification != SupersededDate
    && !(d.terms.sourceType == Calculated && d.terms.certainty == Exact)
    && (d.terms.classification in {Statutory, TribunalDirected, HomeOfficeDirected, Contractual} ==>
          d.terms.sourceType != UnknownSource && d.locator.Some?)
  }

  lemma StepKeepsInv(rows: Rows, op: Operation)
    requires Inv(rows)
    ensures Inv(Step(rows, op))
  {
    if Enabled(rows, op) {
      match op {
        case Create(_, _, id, _, _) => CreateKeepsInv(rows, op);
        case Supersede(_, _, _, _, _, _, _) => SupersedeKeepsInv(rows, op);
        case Verify(_, _, _, _, _, _, _, _) => VerifyKeepsInv(rows, op);
      }
    }
  }

  lemma CreateKeepsInv(rows: Rows, op: Operation)
    requires Inv(rows) && op.Create? && Enabled(rows, op)
    ensures Inv(Effect(rows, op))
  {
    var after := Effect(rows, op);
    forall later, earlier
      ensures Replaces(after, later, earlier) <==> Replaces(rows, later, earlier)
    {
    }
    SameLinks(rows, after);
    forall x | x in after ensures RowSound(after, x) {
      if x != op.id {
        assert RowSound(rows, x);
      } else {
        NothingReplacesUnknown(rows, x);
      }
    }
  }

  lemma SameLinks(rows: Rows, after: Rows)
    requires forall later, earlier :: Replaces(after, later, earlier) <==> Replaces(rows, later, earlier)
    ensures Replacements(after) == Replacements(rows)
  {
    forall e
      ensures e in Replacements(after) <==> e in Replacements(rows)
    {
      assert e in Replacements(after) <==> Replaces(after, e.1, e.0);
      assert e in Replacements(rows) <==> Replaces(rows, e.1, e.0);
    }
  }

  lemma NothingReplacesUnknown(rows: Rows, id: Id)
    requires Inv(rows) && id !in rows
    ensures forall later :: !Replaces(rows, later, id)
    ensures forall x :: !Digraph.Reaches(Replacements(rows), id, x) && !Digraph.Reaches(Replacements(rows), x, id)
  {
    forall later
      ensures !Replaces(rows, later, id)
    {
      if later in rows { assert RowSound(rows, later); }
    }
    forall x
      ensures !Digraph.Reaches(Replacements(rows), id, x) && !Digraph.Reaches(Replacements(rows), x, id)
    {
      if Digraph.Reaches(Replacements(rows), id, x) {
        var c := Digraph.FirstStep(Replacements(rows), id, x);
        assert Replaces(rows, c, id);
      }
      if Digraph.Reaches(Replacements(rows), x, id) {
        var c := Digraph.LastStep(Replacements(rows), x, id);
      }
    }
  }

  lemma SupersedeLinks(rows: Rows, op: Operation)
    requires op.Supersede? && Enabled(rows, op)
    ensures forall later, earlier {:trigger Replaces(Effect(rows, op), later, earlier)} ::
      Replaces(Effect(rows, op), later, earlier) <==>
        Replaces(rows, later, earlier) || (later == op.id && earlier == op.target)
    ensures Replacements(Effect(rows, op)) == Replacements(rows) + {(op.target, op.id)}
  {
    var after := Effect(rows, op);
    forall e
      ensures e in Replacements(after) <==> e in Replacements(rows) + {(op.target, op.id)}
    {
      assert e in Replacements(after) <==> Replaces(after, e.1, e.0);
      assert e in Replacements(rows) <==> Replaces(rows, e.1, e.0);
    }
  }

  lemma SupersedeKeepsInv(rows: Rows, op: Operation)
    requires Inv(rows) && op.Supersede? && Enabled(rows, op)
    ensures Inv(Effect(rows, op))
  {
    var after := Effect(rows, op);
    assert RowSound(rows, op.target);
    NothingReplacesUnknown(rows, op.id);
    SupersedeLinks(rows, op);
    Digraph.AddEdgeAcyclic(Replacements(rows), op.target, op.id);
    forall x | x in after ensures RowSound(after, x) {
      SupersedeRow(rows, op, x);
    }
  }

  lemma SupersedeRow(rows: Rows, op: Operation, x: Id)
    requires Inv(rows) && op.Supersede? && Enabled(rows, op) && x in Effect(rows, op)
    ensures RowSound(Effect(rows, op), x)
  {
    var after := Effect(rows, op);
    SupersedeLinks(rows, op);
    forall c, k | InCase(rows, c, k) ensures InCase(after, c, k) {}
    if x == op.id {
      NothingReplacesUnknown(rows, x);
    } else if x == op.target {
      assert RowSound(rows, x);
      assert Replaces(after, op.id, x);
    } else {
      assert RowSound(rows, x);
      assert after[x] == rows[x];
      assert forall later :: Replaces(after, later, x) <==> Replaces(rows, later, x);
    }
  }

  lemma VerifyKeepsInv(rows: Rows, op: Operation)
    requires Inv(rows) && op.Verify? && Enabled(rows, op)
    ensures Inv(Effect(rows, op))
  {
    var after := Effect(rows, op);
    forall later, earlier
      ensures Replaces(after, later, earlier) <==> Replaces(rows, later, earlier)
    {
    }
    SameLinks(rows, after);
    forall x | x in after ensures RowSound(after, x) {
      assert RowSound(rows, x);
    }
  }

  /** The current deadline of a chain: follow the replacements to the end. */
  ghost function Latest(rows: Rows, id: Id): Id
    requires Inv(rows) && id in rows
    decreases Digraph.Below(Replacements(rows), id)
  {
    if exists later :: Replaces(rows, later, id) then
      var later :| Replaces(rows, later, id);
      assert (id, later) in Replacements(rows);
      Digraph.BelowShrinks(Replacements(rows), id, later);
      Latest(rows, later)
    else id
  }

  /** Every chain is finite and ends in the one open deadline, which is the only one of the chain that can be
      authoritative: a superseded row never is, whatever has been recorded on it. */
  lemma {:induction false} ChainEndsOpen(rows: Rows, id: Id)
    requires Inv(rows) && id in rows
    ensures Latest(rows, id) in rows && rows[Latest(rows, id)].status == Status.Open
    ensures rows[Latest(rows, id)].terms.caseId == rows[id].terms.caseId
    ensures rows[id].status == Status.Open <==> Latest(rows, id) == id
    ensures forall known :: Authoritative(rows[id], known) ==> Latest(rows, id) == id
    decreases Digraph.Below(Replacements(rows), id)
  {
    assert RowSound(rows, id);
    if later :| Replaces(rows, later, id) {
      assert (id, later) in Replacements(rows);
      Digraph.BelowShrinks(Replacements(rows), id, later);
      ChainEndsOpen(rows, later);
      assert RowSound(rows, later);
      assert Latest(rows, id) == Latest(rows, later);
    }
  }

  /** In every reachable state a date is authoritative exactly when it binds somebody, nothing has replaced it, its last
      check went well, and whoever doubts it can find the source. */
  lemma AuthoritativeExactly(rows: Rows, id: Id, known: set<string>)
    requires Inv(rows) && id in rows
    ensures Authoritative(rows[id], known) <==>
      && rows[id].terms.classification in {Statutory, TribunalDirected, HomeOfficeDirected, Contractual}
      && (forall later :: !Replaces(rows, later, id))
      && rows[id].verification in {SourceMatched, ProfessionalConfirmed}
      && rows[id].locator.Some? && !Blank(rows[id].locator.value)
      && (rows[id].terms.sourceId.GetOr("") == "" || rows[id].terms.sourceId.value in known)
  {
    assert RowSound(rows, id);
  }

  /** The inverse of `supersedes`, from the rows naming any deadline asked about: it gives each its one replacement. */
  method SupersededBy(rows: Rows, asked: set<Id>, found: seq<Id>) returns (replacements: map<Id, Id>)
    requires ReplacedOnce(rows)
    requires forall id :: id in found <==> ReplacesAny(rows, id, asked)
    ensures forall earlier, later ::
      earlier in replacements && replacements[earlier] == later <==> earlier in asked && Replaces(rows, later, earlier)
  {
    replacements := map[];
    for i := 0 to |found|
      invariant forall earlier :: earlier in replacements ==>
        earlier in asked && Replaces(rows, replacements[earlier], earlier)
      invariant Covers(rows, found[..i], replacements)
    {
      assert found[i] in found;
      assert found[..i + 1] == found[..i] + [found[i]];
      replacements := replacements[rows[found[i]].terms.supersedes.value := found[i]];
    }
    assert found[..|found|] == found;
    forall earlier, later | earlier in asked && Replaces(rows, later, earlier)
      ensures earlier in replacements
    {
      assert ReplacesAny(rows, later, asked);
    }
  }

  ghost predicate Covers(rows: Rows, found: seq<Id>, replacements: map<Id, Id>) {
    forall id :: id in found && id in rows && rows[id].terms.supersedes.Some? ==>
      rows[id].terms.supersedes.value in replacements
  }

  // ---------- what no later call undoes ----------

  /** No recorded term ever changes, and what is superseded stays superseded. */
  ghost predicate Follows(before: Rows, after: Rows) {
    forall id :: id in before ==>
      && id in after && after[id].terms == before[id].terms
      && (before[id].status == Superseded ==> after[id].status == Superseded)
  }

  lemma StepFollows(rows: Rows, op: Operation)
    ensures Follows(rows, Step(rows, op))
  {
    if Enabled(rows, op) {
      match op {
        case Create(_, _, _, _, _) =>
        case Supersede(_, _, _, _, _, _, _) =>
        case Verify(_, _, _, _, _, _, _, _) =>
      }
    }
  }

  lemma FollowsTrans(a: Rows, b: Rows, c: Rows)
    requires Follows(a, b) && Follows(b, c)
    ensures Follows(a, c)
  {
  }

  lemma {:induction false} RunKeeps(rows: Rows, ops: seq<Operation>)
    requires Inv(rows)
    ensures Inv(Run(rows, ops)) && Follows(rows, Run(rows, ops))
  {
    if ops != [] {
      var before, op := Run(rows, ops[..|ops| - 1]), ops[|ops| - 1];
      RunKeeps(rows, ops[..|ops| - 1]);
      StepKeepsInv(before, op);
      StepFollows(before, op);
      FollowsTrans(rows, before, Step(before, op));
    }
  }

  lemma EmptyInv()
    ensures Inv(map[])
  {
    assert Replacements(map[]) == {};
    forall x ensures !Digraph.Reaches<Id>({}, x, x) {
      if Digraph.Reaches<Id>({}, x, x) {
        var c := Digraph.FirstStep<Id>({}, x, x);
        assert false;
      }
    }
  }

  /** However a run goes on, a deadline superseded in it is never authoritative again. */
  lemma SupersededForGood(ops: seq<Operation>, more: seq<Operation>, id: Id, known: set<string>)
    requires id in Run(map[], ops) && Run(map[], ops)[id].status == Superseded
    ensures var later := Run(Run(map[], ops), more);
      && id in later && later[id].terms == Run(map[], ops)[id].terms && !Authoritative(later[id], known)
      && HasLater(later, id)
  {
    EmptyInv();
    RunKeeps(map[], ops);
    RunKeeps(Run(map[], ops), more);
    ChainEndsOpen(Run(Run(map[], ops), more), id);
    AuthoritativeExactly(Run(Run(map[], ops), more), id, known);
  }

  /** There is another, open, deadline at the end of this one's chain. */
  ghost predicate HasLater(rows: Rows, id: Id) {
    Inv(rows) && id in rows && Latest(rows, id) != id
  }

  /** The `k`-th call of a run from no deadlines is a check of this one that went through. */
  ghost predicate Checks(ops: seq<Operation>, k: int, id: Id) {
    0 <= k < |ops| && ops[k].Verify? && ops[k].target == id && Enabled(Run(map[], ops[..k]), ops[k])
  }

  /** Whatever else was called, a deadline's verification is that of the last check made of it, and names who made it
      unless it only matched the source; a professional confirmation was made by a solicitor or adviser citing a
      registration. */
  lemma {:induction false} VerifiedByLastCheck(ops: seq<Operation>, id: Id) returns (k: nat)
    requires id in Run(map[], ops) && Run(map[], ops)[id].verification != Unverified
    ensures Checks(ops, k, id) && forall j :: k < j ==> !Checks(ops, j, id)
    ensures var d, check := Run(map[], ops)[id], ops[k];
      && d.verification == check.state && check.state in {SourceMatched, ProfessionalConfirmed, Disputed}
      && d.verifiedBy == (if check.state == SourceMatched then None else Some(check.actor.id))
      && (check.state == ProfessionalConfirmed ==>
            check.actor.role in {Solicitor, Adviser} && !Missing(check.actor.registration))
  {
    var n := |ops| - 1;
    var before, op := Run(map[], ops[..n]), ops[n];
    EnabledExactly(before, op);
    if Checks(ops, n, id) {
      k := n;
    } else {
      CheckedBefore(before, op, id);
      k := VerifiedByLastCheck(ops[..n], id);
      forall j | 0 <= j < n ensures Checks(ops, j, id) <==> Checks(ops[..n], j, id) {
        assert ops[..n][..j] == ops[..j];
      }
    }
  }

  lemma CheckedBefore(rows: Rows, op: Operation, id: Id)
    requires !(op.Verify? && op.target == id && Enabled(rows, op))
    requires id in Step(rows, op) && Step(rows, op)[id].verification != Unverified
    ensures id in rows && rows[id].verification == Step(rows, op)[id].verification
    ensures rows[id].verifiedBy == Step(rows, op)[id].verifiedBy
  {
  }

  // ---------- counting ----------

  function OpenRows(rows: Rows): set<Id> {
    set id | id in rows && rows[id].status == Status.Open
  }

  function Creations(ops: seq<Operation>): nat {
    if ops == [] then 0 else
    var front, op := ops[..|ops| - 1], ops[|ops| - 1];
    Creations(front) + if op.Create? && Enabled(Run(map[], front), op) then 1 else 0
  }

  lemma OpenRowsAfter(rows: Rows, id: Id, d: Deadline)
    ensures OpenRows(rows[id := d]) == OpenRows(rows) - {id} + if d.status == Status.Open then {id} else {}
  {
  }

  lemma OpenRowsUpdate(rows: Rows, id: Id, d: Deadline)
    ensures |OpenRows(rows[id := d])|
         == |OpenRows(rows)| - (if id in OpenRows(rows) then 1 else 0) + if d.status == Status.Open then 1 else 0
  {
    OpenRowsAfter(rows, id, d);
    var rest := OpenRows(rows) - {id};
    if id in OpenRows(rows) { assert OpenRows(rows) == rest + {id}; } else { assert OpenRows(rows) == rest; }
  }

  /** A replacement opens one deadline and closes another. */
  lemma OpenCountReplaced(rows: Rows, id: Id, d: Deadline, target: Id, closed: Deadline)
    requires id !in rows && target in rows && rows[target].status == Status.Open
    requires d.status == Status.Open && closed.status == Superseded
    ensures |OpenRows(rows[id := d][target := closed])| == |OpenRows(rows)|
  {
    OpenRowsUpdate(rows, id, d);
    OpenRowsUpdate(rows[id := d], target, closed);
  }

  lemma OpenCountStep(rows: Rows, op: Operation)
    requires Enabled(rows, op)
    requires op.Supersede? ==> rows[op.target].status == Status.Open
    ensures |OpenRows(Effect(rows, op))| == |OpenRows(rows)| + if op.Create? then 1 else 0
  {
    match op {
      case Create(actor, caseId, id, input, now) =>
        OpenRowsUpdate(rows, id, NewRow(actor, caseId, input, DEFAULT_TIMEZONE, None, now));
      case Supersede(actor, caseId, id, target, _, input, now) =>
        OpenCountReplaced(rows, id, NewRow(actor, caseId, input, rows[target].terms.timezone, Some(target), now),
                          target, Closed(rows[target], now));
      case Verify(_, _, target, _, _, _, _, _) =>
        OpenRowsUpdate(rows, target, Verified(rows[target], op));
    }
  }

  /** There are as many open deadlines as there were successful creations: superseding never adds or loses one. */
  lemma {:induction false} OpenCount(ops: seq<Operation>)
    ensures |OpenRows(Run(map[], ops))| == Creations(ops)
  {
    if ops == [] {
      assert OpenRows(map[]) == {};
    } else {
      var front, op := ops[..|ops| - 1], ops[|ops| - 1];
      OpenCount(front);
      EmptyInv();
      RunKeeps(map[], front);
      if Enabled(Run(map[], front), op) {
        if op.Supersede? { assert RowSound(Run(map[], front), op.target); }
        OpenCountStep(Run(map[], front), op);
      }
    }
  }

  // ---------- the concurrency token ----------

  /** The clock never runs backwards. */
  ghost predicate Onwards(ops: seq<Operation>, start: int) {
    && (forall i :: 0 <= i < |ops| ==> start <= ops[i].now)
    && (forall i, j :: 0 <= i < j < |ops| ==> ops[i].now <= ops[j].now)
  }

  /** The call goes through and writes to this row. */
  predicate Touches(rows: Rows, op: Operation, id: Id) {
    Enabled(rows, op) && !op.Create? && op.target == id
  }

  ghost predicate AllWithin(rows: Rows, ops: seq<Operation>, id: Id, millisecond: int) {
    forall k :: 0 <= k < |ops| ==> Within(rows, ops, id, millisecond, k)
  }

  predicate Within(rows: Rows, ops: seq<Operation>, id: Id, millisecond: int, k: nat)
    requires k < |ops|
  {
    Touches(Run(rows, ops[..k]), ops[k], id) ==> Milliseconds(ops[k].now) == millisecond
  }

  lemma MillisecondsMonotone(a: int, b: int)
    requires a <= b
    ensures Milliseconds(a) <= Milliseconds(b)
  {
  }

  lemma TouchStamps(rows: Rows, op: Operation, id: Id)
    requires id in rows
    ensures id in Step(rows, op)
    ensures Milliseconds(Step(rows, op)[id].updatedAt)
         == if Touches(rows, op, id) then Milliseconds(op.now) else Milliseconds(rows[id].updatedAt)
  {
    assert Milliseconds(op.now) * 1000 / 1000 == Milliseconds(op.now);
    if Enabled(rows, op) {
      match op {
        case Create(_, _, _, _, _) =>
        case Supersede(_, _, _, _, _, _, _) =>
        case Verify(_, _, _, _, _, _, _, _) =>
      }
    }
  }

  /** A token outlives a run exactly when every write to its row falls within the token's own millisecond. */
  lemma {:induction false} TokenExactly(rows: Rows, ops: seq<Operation>, id: Id)
    requires id in rows && Onwards(ops, rows[id].updatedAt)
    ensures id in Run(rows, ops)
    ensures Milliseconds(Run(rows, ops)[id].updatedAt) == Milliseconds(rows[id].updatedAt)
       <==> AllWithin(rows, ops, id, Milliseconds(rows[id].updatedAt))
  {
    if ops != [] {
      var n := |ops| - 1;
      TokenExactly(rows, ops[..n], id);
      TouchStamps(Run(rows, ops[..n]), ops[n], id);
      AllWithinNext(rows, ops, id, Milliseconds(rows[id].updatedAt));
      EarlierWithin(ops, rows[id].updatedAt);
    }
  }

  lemma {:induction false} AllWithinNext(rows: Rows, ops: seq<Operation>, id: Id, millisecond: int)
    requires ops != []
    ensures var n := |ops| - 1;
      AllWithin(rows, ops, id, millisecond) <==>
        AllWithin(rows, ops[..n], id, millisecond) && Within(rows, ops, id, millisecond, n)
  {
    var n := |ops| - 1;
    forall k | 0 <= k < n
      ensures Within(rows, ops[..n], id, millisecond, k) <==> Within(rows, ops, id, millisecond, k)
    {
      assert ops[..n][..k] == ops[..k];
    }
  }

  /** When the clock still reads the millisecond it started in, it has read nothing else. */
  lemma {:induction false} EarlierWithin(ops: seq<Operation>, start: int)
    requires ops != [] && Onwards(ops, start)
    ensures Milliseconds(ops[|ops| - 1].now) == Milliseconds(start) ==>
      forall k :: 0 <= k < |ops| ==> Milliseconds(ops[k].now) == Milliseconds(start)
  {
    forall k | 0 <= k < |ops|
      ensures Milliseconds(start) <= Milliseconds(ops[k].now) <= Milliseconds(ops[|ops| - 1].now)
    {
      MillisecondsMonotone(start, ops[k].now);
      MillisecondsMonotone(ops[k].now, ops[|ops| - 1].now);
    }
  }

  /** Two verifications carrying the same token, whatever is called between them: the second goes through exactly when
      the first, and every other write to that deadline in between, was made within the token's own millisecond. */
  lemma SecondVerification(rows: Rows, first: Operation, between: seq<Operation>, second: Operation)
    requires first.Verify? && second.Verify? && Enabled(rows, first) && Enabled(rows, second)
    requires second.target == first.target && second.caseId == first.caseId && second.token == first.token
    requires Onwards([first] + between, rows[first.target].updatedAt)
    ensures Enabled(Run(rows, [first] + between), second)
       <==> AllWithin(rows, [first] + between, first.target, first.token)
    ensures Milliseconds(first.now) != first.token ==> !Enabled(Run(rows, [first] + between), second)
  {
    var ops := [first] + between;
    TokenExactly(rows, ops, first.target);
    RunKeepsTerms(rows, ops, first.target);
    assert ops[..0] == [] && Touches(Run(rows, ops[..0]), ops[0], first.target);
    assert Within(rows, ops, first.target, first.token, 0) <==> Milliseconds(first.now) == first.token;
  }

  lemma {:induction false} RunKeepsTerms(rows: Rows, ops: seq<Operation>, id: Id)
    requires id in rows
    ensures id in Run(rows, ops) && Run(rows, ops)[id].terms == rows[id].terms
  {
    if ops != [] {
      RunKeepsTerms(rows, ops[..|ops| - 1], id);
      StepFollows(Run(rows, ops[..|ops| - 1]), ops[|ops| - 1]);
    }
  }

  // ---------- the repository ----------

  class DeadlineRepository {
    var rows: Rows

    constructor ()
      ensures rows == map[]
    {
      rows := map[];
    }

    method CreateDeadline(actor: Actor, caseId: Id, newId: Id, input: Input, now: int, fault: bool)
      returns (r: Result<Deadline, Refusal>)
      modifies this
      ensures r.Success? <==> !fault && Enabled(old(rows), Create(actor, caseId, newId, input, now))
      ensures r.Failure? ==>
        || Some(r.error) == RefusalOf(old(rows), Create(actor, caseId, newId, input, now))
        || (fault && r.error == Unreachable)
      ensures rows == if r.Success? then Effect(old(rows), Create(actor, caseId, newId, input, now)) else old(rows)
      ensures r.Success? ==>
        && r.value == Deadline(Terms(caseId, input.kind, input.at, input.timezone.GetOr("Europe/London"),
                                     input.classification, input.sourceType, input.sourceId, input.certainty, actor.id,
                                     None),
                               input.locator, Unverified, None, Status.Open, now)
        && rows == old(rows)[newId := r.value]
    {
      if !ValidInput(input) { return Failure(Invalid); }
      if !MayWrite(actor) { return Failure(RefusalFor(actor)); }
      if fault || newId in rows { return Failure(Unreachable); }
      var row := NewRow(actor, caseId, input, DEFAULT_TIMEZONE, None, now);
      rows := rows[newId := row];
      return Success(row);
    }

    /** The replacement is inserted and the original closed, or neither. */
    method SupersedeDeadline(actor: Actor, caseId: Id, newId: Id, target: Id, reason: string, input: Input, now: int,
                             fault: bool)
      returns (r: Result<(Deadline, Deadline), Refusal>)
      modifies this
      ensures r.Success? <==> !fault && Enabled(old(rows), Supersede(actor, caseId, newId, target, reason, input, now))
      ensures r.Failure? ==>
        || Some(r.error) == RefusalOf(old(rows), Supersede(actor, caseId, newId, target, reason, input, now))
        || (fault && r.error == Unreachable)
      ensures rows == if r.Success?
                      then Effect(old(rows), Supersede(actor, caseId, newId, target, reason, input, now))
                      else old(rows)
      ensures r.Success? ==>
        var was := old(rows)[target];
        && r.value.0 == was.(status := Superseded, updatedAt := now - now % 1000)
        && r.value.1 == Deadline(Terms(caseId, input.kind, input.at, input.timezone.GetOr(was.terms.timezone),
                                       input.classification, input.sourceType, input.sourceId, input.certainty,
                                       actor.id, Some(target)),
                                 input.locator, Unverified, None, Status.Open, now)
        && rows == old(rows)[newId := r.value.1][target := r.value.0]
    {
      if Blank(reason) { return Failure(Invalid); }
      if !ValidInput(input) { return Failure(Invalid); }
      if !MayWrite(actor) { return Failure(RefusalFor(actor)); }
      if !InCase(rows, target, caseId) { return Failure(NotPersisted); }
      var original := rows[target];
      if original.status == Superseded { return Failure(Conflict); }
      if newId in rows { return Failure(Unreachable); }
      var begun := rows;
      var replacement := NewRow(actor, caseId, input, original.terms.timezone, Some(target), now);
      rows := rows[newId := replacement];
      if fault {
        rows := begun;
        return Failure(Unreachable);
      }
      var closed := Closed(original, now);
      rows := rows[target := closed];
      return Success((closed, replacement));
    }

    method RecordDeadlineVerification(actor: Actor, caseId: Id, target: Id, state: Verification, basis: string,
                                      locator: Option<string>, token: int, now: int, fault: bool)
      returns (r: Result<Deadline, Refusal>)
      modifies this
      ensures r.Success? <==>
        !fault && Enabled(old(rows), Verify(actor, caseId, target, state, basis, locator, token, now))
      ensures r.Failure? ==>
        || Some(r.error) == RefusalOf(old(rows), Verify(actor, caseId, target, state, basis, locator, token, now))
        || (fault && r.error == Unreachable)
      ensures rows == if r.Success?
                      then Effect(old(rows), Verify(actor, caseId, target, state, basis, locator, token, now))
                      else old(rows)
      ensures r.Success? ==>
        var was := old(rows)[target];
        && r.value == Deadline(was.terms, if locator.Some? then locator else was.locator, state,
                               if state == SourceMatched then None else Some(actor.id), was.status, now - now % 1000)
        && rows == old(rows)[target := r.value]
    {
      if Blank(basis) { return Failure(Invalid); }
      if state !in {SourceMatched, ProfessionalConfirmed, Disputed} { return Failure(Invalid); }
      if !MayWrite(actor) { return Failure(RefusalFor(actor)); }
      if state == ProfessionalConfirmed && !MayConfirm(actor) { return Failure(Forbidden); }
      if fault { return Failure(Unreachable); }
      if !InCase(rows, target, caseId) { return Failure(NotPersisted); }
      if Milliseconds(rows[target].updatedAt) != token { return Failure(Conflict); }
      var was := rows[target];
      var row := was.(verification := state, verifiedBy := if state == SourceMatched then None else Some(actor.id),
                      locator := if locator.Some? then locator else was.locator, updatedAt := Milliseconds(now) * 1000);
      rows := rows[target := row];
      return Success(row);
    }
  }
}
