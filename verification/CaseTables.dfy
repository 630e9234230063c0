/** The tables the review and task repositories share, and what each call is given.
    Tenancy is reduced to whether the caller belongs to the case's workspace, and in which role. A call's `fault` stands
    for any statement of its transaction, or the commit, failing: the transaction then leaves no trace. */
module CaseTables {
  import opened Prelude

  type Id = string

  datatype Role = Client | Caseworker | Adviser | Solicitor | Reviewer | Admin

  /** The caller: `belongs` says whether the case is in their organisation and workspace. */
  datatype Actor = Actor(id: Id, role: Role, registration: Option<string>, belongs: bool)

  datatype Refusal = NotPersisted | Forbidden | Invalid | Conflict | Unreachable

  /** Roles that may write to a case file; the same roles manage tasks. */
  const MAY_WRITE: set<Role> := {Caseworker, Adviser, Solicitor, Admin}
  const PROFESSIONAL: set<Role> := {Solicitor, Adviser}

  predicate MayWrite(actor: Actor) {
    actor.belongs && actor.role in MAY_WRITE
  }

  /** The same said role by role. */
  predicate Writer(actor: Actor) {
    actor.belongs && match actor.role
      case Caseworker => true
      case Adviser => true
      case Solicitor => true
      case Admin => true
      case Client => false
      case Reviewer => false
  }

  function RefusalFor(actor: Actor): Refusal {
    if actor.belongs then Forbidden else NotPersisted
  }

  datatype ReviewStatus = Open | AwaitingMaterial | Decided | Withdrawn | Expired

  datatype Request = Request(caseId: Id, requiresProfessional: bool, reservedActivity: Option<string>,
                             requiredRole: Option<Role>,
                             requestedBy: Id, assignedTo: Option<Id>, status: ReviewStatus, version: int)

  datatype Verdict = Approved | ApprovedWithAmendments | Refused | ReferredOnward

  datatype Decision = Decision(requestId: Id, verdict: Verdict, basis: string, decidedBy: Id, role: Role,
                               registration: Option<string>, digest: string)

  datatype TaskStatus = TaskOpen | InProgress | Blocked | AwaitingReview | Completed | Cancelled

  /** `columns` are the six that an update may change. */
  datatype Task = Task(caseId: Id, status: TaskStatus, requiresProfessional: bool, assignedTo: Option<Id>,
                       columns: map<string, Option<string>>, version: int)
  {
    /** The linked review request, if any. */
    function Review(): Option<Id> {
      if "reviewRequestId" in columns then columns["reviewRequestId"] else None
    }
  }

  /** `deadlines` are the ids of the recorded deadlines, which requests and tasks may refer to. */
  datatype Tables = Tables(requests: map<Id, Request>, decisions: seq<Decision>, tasks: map<Id, Task>,
                           dependencies: set<(Id, Id)>, deadlines: set<Id>)

  const EMPTY := Tables(map[], [], map[], {}, {})

  class Database {
    var tables: Tables

    constructor ()
      ensures tables == EMPTY
    {
      tables := EMPTY;
    }
  }
}
