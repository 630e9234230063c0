# Verification of the case-file core

Dafny 4.11 models of the parts of this repository whose correctness rests on an algorithm or on what a table looks
like after any run of calls, with proofs of what they promise. `dafny verify dfyconfig.toml` checks everything;
`Prelude.dfy` and `Digraph.dfy` hold shared vocabulary (trimming, options and results; walks, reachability and
acyclicity in a finite directed graph), and each other file is one component.

| file | component |
|---|---|
| `KnowledgeGraph.dfy` | `LegalGraph`: four indexes kept in step, breadth-first shortest path, provenance closure |
| `Registry.dfy` | the invariant registry: depth-first cycle search, relational validation, and the evaluator that relies on them |
| `Termination.dfy` | when that evaluator returns, on any registry |
| `Canonical.dfy`, `Audit.dfy` | the canonical serialiser with a JSON reader it round-trips through, and the hash-linked log in memory and as a table |
| `CaseTables.dfy`, `Reviews.dfy`, `Tasks.dfy`, `CaseRuns.dfy` | reviews and tasks as state machines over shared tables, apart and together |
| `DependencyLock.dfy` | dependency writes as transactions under a per-case lock, interleaved with each other and with every other call |
| `Deadlines.dfy` | deadline supersession chains and the authority rule |
| `Assertions.dfy` | the evidence-graph repository: assertions, their supersession, and what a read shows |
| `EvidenceFiles.dfy` | evidence files: rows in a database, bytes in an object store, any step failing |
| `Overlaps.dfy` | which overlapping attaches can cost a file its bytes |
| `Judgements.dfy` | what a judgement on evidence rests on |
| `Calibration.dfy` | expected calibration error and Brier score |
| `RateLimit.dfy` | the pruned sliding-window counter and the decisions it feeds |
| `Chunker.dfy` | the greedy chunker: splitting, grouping, locators |

## How the code is modelled

A class whose methods update its own maps is a class here (`LegalGraph`, `CycleSearch`, `AuditChain`,
`MemoryCounter`), and its loops are loops. A repository is a class over a table value; each call's transaction is one
step of a state machine, given twice: a method with the code's own order of checks and statements, and a guard
`Enabled` with an effect `Effect` that the method is proved to have exactly. Which refusal a call is answered with is
a function too (`RefusalOf`; one for each call in `EvidenceFiles`), in the code's order of checks: it answers nothing
exactly when `Enabled` holds (`RefusedExactly`), and to an outsider as if nothing were there (`HiddenAlike`). Guards,
answers and written rows are also stated field by field, over the tables and the caller alone, without these
definitions (`EnabledExactly`, `ToldExactly`, and the last clauses of each method). Everything about runs is then
proved of the steps. Pure rules (`mayDecide`, `mayComplete`, `deriveAuthority`, `verificationStateOf`, `canonicalise`,
`evaluateInvariant`) are functions.

What is taken as given:

- a transaction commits as a whole or leaves no trace, and its answer says which; a call's `fault` stands for any
  statement or the commit failing, and a call that fails so is answered `UNREACHABLE` or with an earlier refusal. The
  unique indexes and check constraints of the migrations are part of the guards, and so are the foreign keys to
  reviews, deadlines and evidence; those to people and agent executions are not;
- tenancy is reduced to whether the case is the caller's, and the caller's role in it; generated ids are new ones;
- the hash is a parameter. Lemmas that need it say which texts it must not collide on. `TipDetermines` asks this of
  the texts the two logs hash and of nothing else;
- a payload is JSON plus `undefined` fields, with each key of an object once; strings are sequences of UTF-16 code
  units, a finite number is given by its `Number.prototype.toString` text, and the `jsonb` column gives back a payload
  that says the same, its keys in any order;
- in `Calibration`, exact reals.

## What the proofs show about the code

- **Audit rows verify exactly when the instant survives storage.** `verify` recomputes each hash from what the
  `timestamptz` column gives back (`packages/database/src/audit-store.ts:46-58`,
  `packages/database/src/audit-store.ts:122-160`). An appended row verifies if and only if its `at` reads back as it
  was hashed (`AppendVerifies`), and a whole log if and only if every append was so (`ReachableVerifies`). The
  repositories pass `new Date().toISOString()`, whose milliseconds the column can hold.
- **What was erased cannot be told from the log**: had a row been written with any other payload of the same hash, the
  log after any run would differ in that payload alone, and after its erasure in nothing (`ErasureForgets`). The text
  that is hashed is JSON and reads back as what was hashed, its keys in order (`ReadsBack`, `HeaderReads`).
- **The tip is not protected by the chain.** Taking a row out of a verifying log goes unnoticed exactly when it is the
  last one (`DeletionDetected`); somebody who remembers the last hash notices that too (`TipDetermines`).
- **A review that asks for the `reviewer` role can never be decided.** The role is in `MAY_DECIDE`
  (`packages/repositories/src/review-model.ts:68`) but not in `MAY_WRITE` (`packages/repositories/src/context.ts:86`),
  which `recordReviewDecision` checks first. Such a request can be made (`ReviewerMayBeNamed`), and an active request
  can be decided by somebody exactly when it is not one (`DecidableExactly`).
- **A completed task was earned.** Over every run each decision row is that of a call that went through, word for word
  (`DecisionsExactly`), and whoever decides a review is not who asked for it (`DecidedByAnother`). A completed task
  was completed when everything it then depended on was finished (`CompletionEarned`), and one that requires a
  professional after somebody asked for its review and somebody else accepted it (`CompletionAccepted`).
- **A task that requires professional review may rest on a caseworker's decision.** The gate asks for an acceptance on
  the linked review. Whether a professional took it depends on the review: somebody who is not one can decide a review
  exactly when it names no role, or caseworker or admin (`NonProfessionalExactly`, `CaseworkerSuffices`). When the
  review requires a professional, a registered one decided (`CompletedRestsOnDecision`). Nor does the code compare the
  review's case with the task's: a review of another case will do (`ReviewOfAnotherCase`), and a call keeps every task
  linked within its case exactly when the review it links to is of its case (`HomeExactly`).
- **The deadline token has a millisecond of slack.** Of two verifications with one token, whatever is called between
  them, the second goes through exactly when the first and every write in between fall within the token's own
  millisecond (`SecondVerification`).
- **Overlapping attaches can leave an available file without bytes**, with nothing failing: both uploads get the same
  version and key, and one's overwriting or compensation destroys the other's object. A second attach is safe to begin
  exactly when it goes by a version the item has already left behind and so does every other attach of the item under
  way, one whose rows could not be recorded needing nothing more (`Safe`, `OverlapExactly`): while the first is
  reserved or stored either version decides, once it has failed only the second's. Where every attach is safe to begin
  nothing is lost under any failure or crash (`RunKeeps`), a digest check never finds a mismatch (`ReadMatches`), and
  failed clean-ups leave at most one stray object an item (`OneOrphan`). The rows stay in order whatever overlaps
  (`RunKeepsRows`).
- **A judgement of evidence need not follow a digest check of the bytes judged.** `verifyEvidence` says it must
  (`packages/repositories/src/evidence.ts:726-733`), but asks only that the state is no longer `unverified`, which an
  item stops being once any check's outcome is recorded, a failed read included, or it is marked unavailable
  (`GuardExactly`). So an item can be accepted after being marked unavailable (`UncheckedJudgement`), after a check
  that could not read it (`UnreadJudgement`), and, its earlier version checked, after a new file nobody has looked at
  (`CarriedOver`). The item's current file was read, found to match and recorded so exactly when a digest check began
  and recorded `digest_verified` since its last committed attach (`GroundedExactly`); where callers go by versions
  they have seen, exactly when one recorded it since (`GroundedSince`), but not where they may guess one
  (`StaleCheck`).
- **The per-case lock makes every interleaving a run of whole calls** (`Serialisable`), so the whole table stays
  acyclic and no case deadlocks (`NeverDeadlocked`); without it any two adds that would each be allowed, in opposite
  directions, close a cycle (`UnlockedRaceCloses`).
- **At most `limit` requests of a key are let through in any window**, over any run of requests and sweeps at times
  that do not run backwards (`GrantedBounded`), provided the key keeps its limit and window and no sweep is narrower:
  one that is can let more through (`NarrowSweepGrants`). A sweep is invisible to a key exactly when nothing the key
  still counts is old enough to be swept (`SweepExactly`).
- **`evaluateInvariant` need not return on a dependency cycle.** An invariant whose own observations settle its status
  returns before the dependency loop; one that depends on itself and holds never returns (`SelfDependent`). Whatever
  is observed and has been falsified, every evaluation returns exactly when the dependencies some evaluation enters
  have no cycle (`ReturnsExactly`). With distinct ids that is exactly when `dependsOn` has none, unless a critical
  invariant names no observation (`ReturnsUnlessCyclic`): it can never be satisfied, and may keep a cycle behind it
  out of reach (`BarrenShields`). The validator reports all three (`ValidatorDecides`).
- **A chunk's locator may name the section after it.** The marker of the paragraph that closes a chunk is read before
  the chunk is emitted: the locator is the chunk's own exactly when the next chunk does not open with another marker
  (`LocatorExactly`).

## Model

| member | source | states |
|---|---|---|
| `KnowledgeGraph.LegalGraph.AddNode` | packages/graph/src/graph.ts:33-36 | a node is stored exactly when its id is new; nothing else changes |
| `KnowledgeGraph.LegalGraph.AddEdge` | packages/graph/src/graph.ts:38-67 | an edge is stored exactly when its id is new, both ends exist, it has a basis and its kind is one that may join nodes of those two kinds; all four indexes stay one edge list, and a refusal changes nothing and names something really wrong |
| `KnowledgeGraph.RulesAgree` | packages/graph/src/graph.ts:13-25 | the rule table read by the two ends: which kinds of edge may join one kind of node to another |
| `KnowledgeGraph.LegalGraph.Outgoing` | packages/graph/src/graph.ts:82-84 | exactly the stored edges that leave the node, in the order they were stored |
| `KnowledgeGraph.LegalGraph.Incoming` | packages/graph/src/graph.ts:86-88 | exactly the stored edges that enter the node, in the order they were stored |
| `KnowledgeGraph.LegalGraph.PathBetween` | packages/graph/src/graph.ts:161-182 | null exactly when an end is unknown or no directed path exists; otherwise a head-to-tail path of stored edges with its nodes, and none is shorter |
| `KnowledgeGraph.LegalGraph.Explore` | packages/graph/src/graph.ts:167-181 | the early-exit search stops with predecessors that give the shortest distance, or with proof that there is no path |
| `KnowledgeGraph.LegalGraph.Expand` | packages/graph/src/graph.ts:173-179 | one expansion keeps seen nodes, predecessors and queue in order of distance, and may stop at the first edge into the target |
| `KnowledgeGraph.LegalGraph.Reconstruct` | packages/graph/src/graph.ts:184-195 | following predecessors terminates at the source and gives a path of exactly the recorded distance |
| `KnowledgeGraph.LegalGraph.WhyIncluded` | packages/graph/src/graph.ts:120-158 | lists exactly the other nodes joined to the start by a chain of edges taken forwards, or backwards if they are `requires`, each once and next to an edge from something listed before it, a node the start points at next to the first stored edge that does; `fullyAttributable` exactly when every edge listed was asserted by a person or names a source that is not blank, and the ids named are those of the others |
| `KnowledgeGraph.WithinRadius` | packages/graph/src/graph.ts:171-179 | whatever a path reaches has been seen no later than the path's length |
| `KnowledgeGraph.NoPath` | packages/graph/src/graph.ts:171-181 | an exhausted queue means no path exists |
| `KnowledgeGraph.NoShorter` | packages/graph/src/graph.ts:177 | stopping at the first edge into the target loses no shorter path |
| `KnowledgeGraph.ClosureExact` | packages/graph/src/graph.ts:129-150 | a listing grown edge by edge and closed under both relations is the whole provenance closure |
| `KnowledgeGraph.AccountsPlainly` | packages/graph/src/graph.ts:213-216 | what the answer says in terms of the stored edges, who asserted them and which source they name, and nothing else |
| `KnowledgeGraph.AttributableChain` | packages/graph/src/graph.ts:152-157 | in a fully attributable answer each listed node is joined to the start by a chain of edges each of which a person asserted or a source backs |
| `KnowledgeGraph.OverlookedEdge` | packages/graph/src/graph.ts:131-138 | where the first stored edge from the start to a node is an agent's without a source the answer is not fully attributable and names it, though a later edge joins the two that a person asserted or a source backs |
| `KnowledgeGraph.PathClimbs` | packages/graph/src/graph.ts:13-25 | the rule table admits a rank that every edge but `derived_from` strictly raises |
| `KnowledgeGraph.CycleDerives` | packages/graph/src/graph.ts:13-25 | every directed cycle passes through a `derived_from` edge |
| `Registry.CycleSearch.Walk` | packages/invariants/src/validate.ts:91-100 | the recursive search terminates, colours what it visits, and with no cycle found has finished everything below the id |
| `Registry.FindCycles` | packages/invariants/src/validate.ts:86-104 | reports nothing exactly when `dependsOn` is acyclic, and only genuine cycles whose last id repeats the first |
| `Registry.FinishOrderAcyclic` | packages/invariants/src/validate.ts:97-99 | if everything an id depends on finished before it, the relation has no cycle |
| `Registry.CloseCycle` | packages/invariants/src/validate.ts:92-95 | cutting the path at the repeated id and closing it gives a genuine cycle |
| `Registry.ValidateRegistry` | packages/invariants/src/validate.ts:24-83 | the complaints each declaration deserves, declaration by declaration in the order of the checks, then a genuine cycle for each one found and at least one exactly when there is one, blamed on its first id; no duplicate id or cycle exactly when ids are distinct and `dependsOn` is acyclic |
| `Registry.ComplaintsExact` | packages/invariants/src/validate.ts:31-73 | the checks in the loop find exactly what is wrong with the k-th declaration, seen against the whole registry |
| `Registry.ComplaintsAscend` | packages/invariants/src/validate.ts:31-73 | the complaints about one declaration come in the order of the checks, each but an unknown dependency at most once |
| `Registry.RepeatsExactly` | packages/invariants/src/validate.ts:40-42 | comparing a set's size with a list's length detects exactly the lists with a repeated member |
| `Registry.LookupsAgree` | packages/invariants/src/validate.ts:87 | with distinct ids the validator's last-wins map and the evaluator's first-wins search agree |
| `Registry.ClosureShrinks` | packages/invariants/src/evaluate.ts:169-182 | each step to a dependency leaves strictly less to evaluate: why the recursion terminates |
| `Registry.OwnState` | packages/invariants/src/evaluate.ts:134-167 | failed, no observer and unmeasured are told apart by the readings alone, a measured failure first |
| `Registry.ObserveExactly` | packages/invariants/src/evaluate.ts:88-105 | an observation shows an invariant holding when it is true, a positive count or a text that is not all spaces, shows it failing when it is measured and does not, and neither when it is null or missing |
| `Registry.PrecedenceFollowed` | packages/invariants/src/evaluate.ts:39-47 | the status reported describes the invariant, and no status before it in the declared precedence does |
| `Registry.AnswerExactly` | packages/invariants/src/evaluate.ts:123-205 | the answer names the invariant, gives each observation its outcome in order, is blocked by the first registered dependency that is not satisfied, and its action names exactly the observations the status is about or hands on that dependency's own action |
| `Registry.FirstUnsatisfiedExact` | packages/invariants/src/evaluate.ts:169-182 | the dependency loop finds nothing exactly when every registered dependency is satisfied, and otherwise names one that is not |
| `Registry.ClosureUnfolds` | packages/invariants/src/evaluate.ts:169-182 | the dependency closure is the dependencies together with their closures |
| `Registry.SatisfiedExactly` | packages/invariants/src/evaluate.ts:123-205 | `satisfied` exactly when the invariant and everything in its transitive closure has all observations held and, if critical, one seen to fail |
| `Registry.BlockedHasRoot` | packages/invariants/src/evaluate.ts:169-182 | every blocked invariant leads in finitely many steps to one that is neither blocked nor satisfied, whose action is the one reported |
| `Registry.AllSatisfied` | packages/invariants/src/evaluate.ts:207-210 | a whole registry reports satisfied throughout exactly when every invariant in it has all observations held and, if critical, one seen to fail |
| `Termination.AttemptAgrees` | packages/invariants/src/evaluate.ts:123-205 | on a registry with distinct ids and no cycle, calls nested one deeper than the closure is large are enough, and give the evaluation |
| `Termination.SelfDependent` | packages/invariants/src/evaluate.ts:169-182 | an invariant whose observations hold and whose first dependency is itself never returns, at any depth |
| `Termination.ReturnsExactly` | packages/invariants/src/evaluate.ts:123-205 | on any registry, every evaluation returns whatever is observed and falsified exactly when the dependencies an evaluation can enter have no cycle |
| `Termination.ReturnsUnlessCyclic` | packages/invariants/src/evaluate.ts:169-182 | with distinct ids and no critical invariant without observations: exactly when `dependsOn` has no cycle |
| `Termination.BarrenShields` | packages/invariants/src/evaluate.ts:187-197 | without that a self-dependent invariant may always return: a critical one without observations before it is never satisfied |
| `Termination.ValidatorDecides` | packages/invariants/src/validate.ts:24-83 | where neither a duplicate id nor a missing observation is reported, every evaluation returns exactly when no cycle is |
| `Canonical.EscapePrefix` | packages/governance/src/audit.ts:38 | what stands for one character inside a JSON string is a prefix code |
| `Canonical.BodyPrefix` | packages/governance/src/audit.ts:38 | a printed string determines the string and where it ends, surrogate pairs and lone surrogates included |
| `Canonical.NumeralPrefix` | packages/governance/src/audit.ts:38 | a printed number ends where something that cannot continue it begins |
| `Canonical.Unambiguous` | packages/governance/src/audit.ts:37-45 | equal texts, whatever follows them, come from payloads that say the same |
| `Canonical.ReadsBack` | packages/governance/src/audit.ts:37-45 | the round trip: read as JSON the text is one value with nothing after it, saying what the payload says, the keys of every object in strictly ascending order of their code units |
| `Canonical.EscapeShortest` | packages/governance/src/audit.ts:38 | a character is escaped exactly when it has to be, by two characters where JSON has such an escape and by six otherwise |
| `Canonical.LessExactly` | packages/governance/src/audit.ts:42 | keys are compared by the first code unit in which they differ, a beginning of another key before it |
| `Canonical.OrderIndependent` | packages/governance/src/audit.ts:37-45 | payloads that differ only in key order, at any depth, and in `undefined` fields are printed the same |
| `Canonical.SortedForm` | packages/governance/src/audit.ts:41-43 | dropping `undefined` fields and sorting by UTF-16 code units changes nothing a payload says |
| `Canonical.CanonicalExactly` | packages/governance/src/audit.ts:37-45 | canonical texts are equal if and only if the payloads say the same |
| `Canonical.CanonicalWellFormed` | packages/governance/src/audit.ts:37-45 | the text never holds a lone surrogate, so hashing its UTF-8 encoding loses nothing |
| `Audit.VerifyRows` | packages/database/src/audit-store.ts:122-160 | accepts exactly the intact logs, and otherwise names the first broken row and the first check it fails |
| `Audit.HeaderInjective` | packages/database/src/audit-store.ts:21-31 | the hashed text determines every hashed field |
| `Audit.HeaderReads` | packages/database/src/audit-store.ts:21-31 | what is hashed is JSON with exactly seven members, `seq` in decimal, the rest strings under their own names |
| `Audit.AppendVerifies` | packages/database/src/audit-store.ts:75-111 | a row appended to a log verifies exactly when the log did and the instant reads back as hashed |
| `Audit.TombstoneExactly` | packages/database/src/audit-store.ts:170-178 | erasing a payload keeps every hashed field and hash, and the log verifies afterwards exactly when it did before, the erased payload aside |
| `Audit.ReachableVerifies` | packages/database/src/audit-store.ts:75-178 | a log reached by any appends and erasures verifies exactly when every append's instant reads back unchanged |
| `Audit.ReachablePayloads` | packages/database/src/audit-store.ts:75-178 | in every reachable log a payload matches its hash unless erased |
| `Audit.ReachableForgotten` | packages/database/src/audit-store.ts:75-178 | in every reachable log numbers are positions, the first row links to 64 zeros, and an erased row holds an empty object |
| `Audit.ErasureForgets` | packages/database/src/audit-store.ts:162-178 | had a row been written with any other payload of the same hash, the log after any run would differ in that payload alone, and once it is erased in nothing |
| `Audit.TipDetermines` | packages/governance/src/audit.ts:86-116 | two verifying logs with one last hash have the same length, the same hashed fields throughout, and payloads that say the same wherever neither is erased |
| `Audit.DeletionDetected` | packages/governance/src/audit.ts:86-116 | removing a row from a verifying log goes unnoticed exactly when it is the last |
| `Audit.CanonicalCollisionFree` | packages/governance/src/audit.ts:29-45 | a hash that does not collide on the canonical texts of two logs does not collide on their headers or on what their payloads say |
| `Audit.ThroughVerifies` | packages/governance/src/audit.ts:29-45 | so a log hashed through canonical texts verifies exactly when every append was read back unchanged, if the hash tells the two texts of each instant apart |
| `Audit.ThroughTipDetermines` | packages/governance/src/audit.ts:29-45 | and its last hash determines it, if the hash does not collide on the texts of the two logs |
| `Audit.AuditChain.Append` | packages/governance/src/audit.ts:57-75 | appends one entry numbered by its position, linked to the last and hashed as it says; the chain, loaded from an export or not, verifies afterwards exactly when it did before |
| `Audit.AuditChain.Verify` | packages/governance/src/audit.ts:86-116 | accepts exactly the intact chains |
| `Audit.AuditStore.Append` | packages/database/src/audit-store.ts:75-111 | inserts the next row and returns it with the instant and the payload as given, every field of the header spelled out, or inserts nothing when its hash is taken |
| `Audit.AuditStore.Erase` | packages/database/src/audit-store.ts:170-178 | exactly when a row of that number is not erased yet: it keeps its header and hash, its payload becomes an empty object and its instant of erasure the one given; every other row stays as it was, and without such a row nothing changes |
| `Audit.AuditStore.Verify` | packages/database/src/audit-store.ts:122-160 | accepts exactly the intact logs |
| `Reviews.StepKeepsInv` | packages/repositories/src/review.ts:438-775 | every call keeps: a decision row exactly when the status is decided, never two, each by somebody entitled, not the requester, and for a reserved activity the required professional with a registration |
| `Reviews.ActiveHasNoDecision` | packages/repositories/src/review.ts:559-577 | the unique index never refuses a decision the code lets through |
| `Reviews.StepFollows` | packages/repositories/src/review.ts:573-613 | decisions are only added, what authority was judged on never changes, versions only rise |
| `Reviews.TokenSpent` | packages/repositories/src/review.ts:704-775 | of two writes carrying one version at most one ever succeeds, whatever happens between them |
| `Reviews.UnreachableExactly` | packages/repositories/src/review.ts:559-598 | a decision nothing else speaks against is lost to a table constraint exactly when a solicitor without a registration takes it |
| `Reviews.DecidesExactly` | packages/repositories/src/review-model.ts:196-226 | in every reachable state a decision goes through exactly for a writer who did not ask for the review, with a basis and a digest, on an undecided request of the case at that version that leaves the role open or names it, with a registration where a professional is required or a solicitor decides |
| `Reviews.EnabledExactly` | packages/repositories/src/review.ts:438-775 | when a request is made, reassigned or withdrawn, field by field |
| `Reviews.ToldExactly` | packages/repositories/src/review.ts:533-598 | which answer a writer gets about a request of the case: forbidden where the decision is not theirs, whatever the state, then a conflict, then the lost decision of a solicitor without a registration |
| `Reviews.HiddenAlike` | packages/repositories/src/review.ts:530-541 | an outsider, or somebody who works in another case, is answered as if nothing were there, whatever is recorded |
| `Reviews.DecidableExactly` | packages/repositories/src/review-model.ts:196-226 | an active request can be decided by somebody exactly when it does not name the reviewer role |
| `Reviews.ReviewerMayBeNamed` | packages/repositories/src/review.ts:826-847 | a request naming that role, otherwise valid, is made unless its reserved activity is the empty text |
| `Reviews.ReviewerRoleNeverDecides` | packages/repositories/src/review-model.ts:196-226 | a request that names the reviewer role is never decided |
| `Reviews.NonProfessionalExactly` | packages/repositories/src/review-model.ts:196-226 | somebody who is not a regulated professional can decide an active request exactly when it names no role, caseworker or admin |
| `Reviews.ReviewRepository.CreateReviewRequest` | packages/repositories/src/review.ts:438-499 | one open request exactly when input, role and table allow it, its terms those asked for and the caller the one who asked; otherwise the tables are untouched and the first check that fails is the answer |
| `Reviews.ReviewRepository.RecordReviewDecision` | packages/repositories/src/review.ts:509-651 | one decision row with the verdict, basis and digest given and the caller's id, role and registration, and the request decided at the next version, both returned and nothing else changed, exactly when basis, digest, authority, status and version allow it; otherwise the first check that fails is the answer |
| `Reviews.ReviewRepository.ReassignReview` | packages/repositories/src/review.ts:661-676 | changes the reviewer of an active request at the version read, and nothing else; returns the row, or answers the first check that fails |
| `Reviews.ReviewRepository.WithdrawReviewRequest` | packages/repositories/src/review.ts:679-694 | closes an active request at the version read, with a stated reason; returns the row, or answers the first check that fails |
| `Reviews.ReviewRepository.Transition` | packages/repositories/src/review.ts:704-775 | the shared shape: exactly one row changes, and only at the version read; role, case, status and version are checked in that order |
| `Tasks.StepKeepsInv` | packages/repositories/src/task.ts:481-929 | every call keeps: dependencies acyclic and within a case, and a completed task that requires a professional linked to an accepting decision |
| `Tasks.RefusedExactlyForCycles` | packages/repositories/src/task.ts:842-862 | a new dependency between two tasks of a case is refused exactly when it would close a cycle |
| `Tasks.WalkFrom` | packages/repositories/src/task.ts:844-851 | the recursive query collects exactly what the start depends on, directly or through others |
| `Tasks.NeverDeadlocked` | packages/repositories/src/task.ts:633-638 | a case with unfinished tasks has one all of whose recorded predecessors are finished, and only a missing acceptance can keep it from completing |
| `Tasks.StepFollows` | packages/repositories/src/task.ts:692-781 | completed and cancelled tasks are frozen; case, professional requirement and recorded decisions never change; versions only rise |
| `Tasks.CompletedStays` | packages/repositories/src/task.ts:622-659 | once completed, neither the task's row nor the verdict it rests on can change |
| `Tasks.TokenSpent` | packages/repositories/src/task.ts:738-757 | of two writes to a task carrying one version at most one ever succeeds |
| `Tasks.CompletesExactly` | packages/repositories/src/task-model.ts:147-178 | a completion goes through exactly for a writer, on an unfinished task of the case at that version, with every recorded predecessor completed or cancelled and, if a professional is required, a linked review whose first decision is an approval |
| `Tasks.EnabledExactly` | packages/repositories/src/task.ts:481-683 | when a task is created, updated, assigned or cancelled, field by field |
| `Tasks.DependsExactly` | packages/repositories/src/task.ts:796-929 | a dependency is recorded exactly between two tasks of the case, once, where the relation stays acyclic, and removed exactly where it is recorded |
| `Tasks.UpdateInvalidExactly` | packages/repositories/src/task.ts:557-575 | an update is invalid exactly when it changes nothing, or anything but the six columns, or sets no priority there is, or no title |
| `Tasks.ToldConflict` | packages/repositories/src/task.ts:692-862 | to a writer whose call makes sense about tasks of the case, whatever else stands in the way is a conflict, unless the table would not have the columns |
| `Tasks.TaskRepository.CreateTask` | packages/repositories/src/task.ts:481-545 | one open task at version one with what was asked for, exactly when input, role, assignee and table allow it, and the row returned; otherwise the first check that fails is the answer |
| `Tasks.TaskRepository.UpdateTask` | packages/repositories/src/task.ts:554-596 | the row with these columns changed at the next version and nothing else, for an active task at the version read, a linked review or deadline being a recorded one; otherwise the first check that fails is the answer |
| `Tasks.TaskRepository.AssignTask` | packages/repositories/src/task.ts:598-612 | reassigns an active task to an eligible person or nobody; otherwise the first check that fails is the answer |
| `Tasks.TaskRepository.CompleteTask` | packages/repositories/src/task.ts:622-659 | the row becomes completed at the next version and nothing else changes, exactly for a writer on an unfinished task of the case at that version, every recorded predecessor completed or cancelled, and a first decision that approves on the linked review if a professional is required; otherwise the first check that fails is the answer |
| `Tasks.TaskRepository.CancelTask` | packages/repositories/src/task.ts:661-683 | cancels an unfinished task with a stated reason; otherwise the first check that fails is the answer |
| `Tasks.TaskRepository.Transition` | packages/repositories/src/task.ts:692-781 | the shared shape: one row changes, only at the version read and past the gate; role, case, assignee, status, version and gate are checked in that order |
| `Tasks.TaskRepository.AddTaskDependency` | packages/repositories/src/task.ts:796-878 | records the edge exactly when both tasks are the case's, it is new and it closes no cycle; otherwise the first check that fails is the answer |
| `Tasks.TaskRepository.RemoveTaskDependency` | packages/repositories/src/task.ts:881-929 | removes exactly the recorded edge; otherwise the first check that fails is the answer |
| `CaseRuns.RunKeeps` | packages/repositories/src/task.ts:584-659 | over every run of review and task calls together both invariants hold and nothing settled is undone |
| `CaseRuns.CompleteExactly` | packages/repositories/src/task.ts:622-659 | in every reachable state a completion goes through exactly for a writer on an unfinished task of the case at that version, with every predecessor on record finished and, if a professional is required, an accepting decision on the linked review on record |
| `CaseRuns.DecisionsExactly` | packages/repositories/src/review.ts:579-613 | over every run the decisions recorded are exactly those of the decision calls that went through, with their verdict, basis, digest and caller |
| `CaseRuns.RequestsExactly` | packages/repositories/src/review.ts:438-499 | a request is recorded exactly when a call asked for it, on that call's terms for good, and names its caller as who asked |
| `CaseRuns.DecidedByAnother` | packages/repositories/src/review-model.ts:202-204 | whoever decides a review is not the caller of the earlier call that asked for it, and was entitled to on that call's terms |
| `CaseRuns.CompletionEarned` | packages/repositories/src/task.ts:614-659 | a completed task was completed by a call of the run when every predecessor then on record was finished; those rows and its own have not changed since |
| `CaseRuns.CompletionAccepted` | packages/repositories/src/task.ts:614-659 | behind a completed task that requires a professional are three calls in order: one that asked for the linked review, one by somebody else that decided it with an acceptance, and the completion |
| `CaseRuns.CompletedRestsOnDecision` | packages/repositories/src/task-model.ts:147-178 | in every reachable state a completed task that requires a professional rests on an accepting decision by somebody entitled, a registered professional when the review required one, and rests on the same decision ever after |
| `CaseRuns.CaseworkerSuffices` | packages/repositories/src/task-model.ts:163-176 | where the linked review names no role, a caseworker's decision completes a task that requires professional review |
| `CaseRuns.HomeExactly` | packages/repositories/src/task.ts:574-592 | a call that goes through leaves every task linked within its case exactly when the review it links to, if any, is of its case |
| `CaseRuns.RunHome` | packages/repositories/src/task.ts:481-596 | so over a run of such calls every completed professional task rests on a review of its own case |
| `CaseRuns.ReviewOfAnotherCase` | packages/repositories/src/task.ts:633-658 | a task is completed on an accepting decision about another case by linking it to that review first |
| `DependencyLock.Serialisable` | packages/repositories/src/task.ts:811-813 | however transactions on any cases interleave with each other and with other calls, the tables are those the committed calls leave one after the other |
| `DependencyLock.NeverDeadlocked` | packages/repositories/src/task.ts:788-795 | so under any interleaving dependencies stay acyclic and a case with unfinished tasks has one all of whose predecessors are finished |
| `DependencyLock.LockComesFree` | packages/repositories/src/task.ts:811-813 | only a transaction under way holds a lock: another can have the case at once, or when that one ends |
| `DependencyLock.OtherCaseUnaffected` | packages/repositories/src/task.ts:811-862 | an edge committed in one case leaves what a transaction on another case read true |
| `DependencyLock.CommitIsAtomicAdd` | packages/repositories/src/task.ts:796-878 | a commit does what the whole call, made at that moment, would do |
| `DependencyLock.UnlockedRaceCloses` | packages/repositories/src/task.ts:788-795 | without the lock any two adds that would each be allowed, in opposite directions, close a cycle when both read before either commits |
| `Deadlines.StepKeepsInv` | packages/repositories/src/deadline.ts:502-788 | every call keeps: links are chains within a case, a row superseded exactly when one row replaces it, a verifier named exactly for confirmations and disputes, no calculated date exact, a binding one sourced |
| `Deadlines.ChainEndsOpen` | packages/repositories/src/deadline.ts:568-674 | every chain is finite and ends in its one open row, the only one that can be authoritative |
| `Deadlines.RunKeeps` | packages/repositories/src/deadline.ts:502-788 | over every run no recorded term changes and what is superseded stays so |
| `Deadlines.SupersededForGood` | packages/repositories/src/deadline.ts:608-647 | a superseded deadline is never authoritative again, whatever is verified later |
| `Deadlines.AuthoritativeExactly` | packages/repositories/src/deadline-model.ts:153-194 | in every reachable state a date is authoritative exactly when it binds somebody, nothing replaces it, it was matched or confirmed, says where to look, and names no source that cannot be found |
| `Deadlines.VerifiedByLastCheck` | packages/repositories/src/deadline.ts:695-788 | over every run a deadline's verification is that of the last check that went through and names its caller unless it only matched the source; a professional confirmation was made by a solicitor or adviser with a registration |
| `Deadlines.EnabledExactly` | packages/repositories/src/deadline.ts:502-788 | when a deadline is created, superseded or verified, field by field |
| `Deadlines.ToldExactly` | packages/repositories/src/deadline.ts:568-788 | which answer a writer gets about a deadline of the case: forbidden for a confirmation that is not a professional's, a conflict for what has been replaced or written since |
| `Deadlines.OpenCount` | packages/repositories/src/deadline.ts:502-674 | there are as many open rows as successful creations |
| `Deadlines.SecondVerification` | packages/repositories/src/deadline.ts:734-765 | of two verifications with one token, whatever is called between them, the second goes through exactly when the first and every write in between fall within the token's millisecond |
| `Deadlines.TokenExactly` | packages/repositories/src/deadline.ts:734-765 | with a clock that never runs backwards a token outlives a run exactly when every write to its row falls within its millisecond |
| `Deadlines.SupersededBy` | packages/repositories/src/deadline.ts:338-348 | the inverse map gives each superseded row its one replacement and nothing else |
| `Deadlines.DeadlineRepository.CreateDeadline` | packages/repositories/src/deadline.ts:502-556 | one open, unverified row with the terms given, in Europe/London unless they say otherwise, exactly when the input and role allow it, and that row returned; otherwise the first check that fails is the answer |
| `Deadlines.DeadlineRepository.SupersedeDeadline` | packages/repositories/src/deadline.ts:568-674 | the replacement is inserted, in the original's timezone unless it says otherwise, and the original closed, or neither; only the original's status and time change; otherwise the first check that fails is the answer |
| `Deadlines.DeadlineRepository.RecordDeadlineVerification` | packages/repositories/src/deadline.ts:695-788 | the row takes the state, the caller as verifier unless the source was only matched, the locator if one is given and the time to the millisecond, and nothing else changes, exactly when the basis, state, role, registration and token allow it; otherwise the first check that fails is the answer |
| `Assertions.StepKeepsInv` | packages/repositories/src/graph.ts:496-882 | every call keeps: one node of a type per subject of a case; each edge asserted, joining two nodes of its case and live at most once; every claim with somebody and a reason behind it, a machine's with its execution and a confirmation with a person; supersession a set of chains within an edge; citations of evidence in the edge's own case, once each |
| `Assertions.RunKeeps` | packages/repositories/src/graph.ts:496-882 | over every run nothing recorded is lost, and an edge only ever goes from live to retired |
| `Assertions.EnabledExactly` | packages/repositories/src/graph.ts:496-882 | when each of the five calls goes through, field by field |
| `Assertions.LastIsCurrent` | packages/repositories/src/graph.ts:297-300 | the last assertion inserted on an edge is always in force |
| `Assertions.EveryEdgeHasCurrent` | packages/repositories/src/graph.ts:564-634 | in every reachable state each edge has an assertion in force |
| `Assertions.ReplacedOnce` | packages/repositories/src/graph.ts:644-720 | once an assertion has been replaced no later call replaces it again |
| `Assertions.AssertionsFor` | packages/repositories/src/graph.ts:261-347 | the loops group exactly the wanted assertions by edge in row order, each with its replacement, its citations and its traceability |
| `Assertions.ReplacedLocally` | packages/repositories/src/graph.ts:297-300 | the rows of the edges asked for show every replacement there is |
| `Assertions.ViewFaithful` | packages/repositories/src/graph.ts:352-371 | a view is never empty, shows all or just the current assertions, each with what replaced it, what is cited for it and whether it can be traced, and carries the weightiest state in force |
| `Assertions.ReadsAgree` | packages/repositories/src/graph.ts:384-434 | the default read and the full-history read give an edge the same verification state |
| `Assertions.TraceableExactly` | packages/repositories/src/graph-model.ts:161-167 | an assertion claiming a document reads as traceable exactly when something was cited for it: every stored citation is usable |
| `Assertions.GraphRepository.ReadGraph` | packages/repositories/src/graph.ts:384-434 | one faithful view for every edge of the query: the filter on unasserted edges never drops one |
| `Assertions.GraphRepository.CreateNode` | packages/repositories/src/graph.ts:496-555 | one node per subject of a case; otherwise the first check that fails is the answer |
| `Assertions.GraphRepository.CreateEdge` | packages/repositories/src/graph.ts:564-634 | the edge and its first assertion are written together; otherwise the first check that fails is the answer |
| `Assertions.GraphRepository.CreateAssertion` | packages/repositories/src/graph.ts:644-720 | inserts exactly when the claim, the edge and the replaced assertion allow it; otherwise the first check that fails is the answer |
| `Assertions.GraphRepository.SupersedeAssertion` | packages/repositories/src/graph.ts:723-745 | replaces an assertion on its own edge, and an unknown one is not persisted; otherwise answers as an insertion on that edge does |
| `Assertions.GraphRepository.LinkAssertionEvidence` | packages/repositories/src/graph.ts:754-824 | cites evidence of the same case once, with a usable locator; otherwise the first check that fails is the answer |
| `Assertions.GraphRepository.InvalidateEdge` | packages/repositories/src/graph.ts:834-882 | retires a live edge, keeping it, with who and why; otherwise the first check that fails is the answer |
| `EvidenceFiles.StepKeepsInv` | packages/repositories/src/evidence.ts:530-995 | every step of interleaved calls, each attach safe to begin, keeps: stored bytes hash to the recorded digest, versions 1..n, older files unavailable and replaced by the next, the current file the newest, uploads writing only under unreferenced keys |
| `EvidenceFiles.RunKeeps` | packages/repositories/src/evidence.ts:615-724 | so over every run in which each attach is safe to begin, whatever fails or crashes; rows and their bytes never change |
| `EvidenceFiles.KeyFree` | packages/repositories/src/evidence.ts:649-654 | an upload under way writes under a key no file refers to |
| `EvidenceFiles.MaxIsCount` | packages/repositories/src/evidence.ts:636-650 | the next version is one more than the number of files |
| `EvidenceFiles.CurrentIsNewest` | packages/repositories/src/evidence.ts:677-687 | the current file of an item is its newest version |
| `EvidenceFiles.AvailableExactly` | packages/repositories/src/evidence.ts:411-438 | an item is reported available exactly when one of its files is, and that file's stored bytes match its digest |
| `EvidenceFiles.ReadMatches` | packages/repositories/src/evidence.ts:757-775 | at any point of any run a digest recomputed from stored bytes matches; only a failed read gives another outcome |
| `EvidenceFiles.CheckVerifies` | packages/repositories/src/evidence.ts:734-830 | a digest check of an item that has a file records `digest_verified` |
| `EvidenceFiles.OneOrphan` | packages/repositories/src/evidence-storage.ts:17-22 | failed clean-ups leave at most one unreferenced object an item |
| `EvidenceFiles.RunAttach` | packages/repositories/src/evidence.ts:615-724 | the four steps of an attach, with nothing in between, come to the outcome the whole call has |
| `EvidenceFiles.WholeAttachKeeps` | packages/repositories/src/evidence.ts:615-724 | so the whole call, safe to begin, keeps what every state keeps, whichever of its steps fails |
| `EvidenceFiles.ToldExactly` | packages/repositories/src/evidence.ts:615-994 | which answer a writer gets: what is not in the case might as well not exist, another version is a conflict, and so is judging what was never looked at |
| `EvidenceFiles.EvidenceRepository.CreateEvidenceItem` | packages/repositories/src/evidence.ts:530-604 | one requested, unverified item at version one without a file exactly when type, title, classification, acquisition and cited execution are valid and the role allows it; otherwise the first check that fails is the answer |
| `EvidenceFiles.EvidenceRepository.AttachFileVersion` | packages/repositories/src/evidence.ts:615-724 | exactly when the input, role, item and version allow it and nothing fails: one file of the version after the item's highest, available, with its bytes under its own key and their digest, current on the item, whose version rises, and the version before closed in its favour, no other row changed; otherwise no row at all and the object removed unless that fails too, answered with the first check that fails |
| `EvidenceFiles.EvidenceRepository.Upload` | packages/repositories/src/evidence.ts:636-719 | bytes first, then the rows in one transaction, and bytes whose rows were not recorded removed again |
| `EvidenceFiles.EvidenceRepository.RecordFile` | packages/repositories/src/evidence.ts:657-697 | the file, the closing of the one before and the item's pointer and version in one transaction, exactly when the version is the one read and nothing fails |
| `EvidenceFiles.EvidenceRepository.VerifyEvidence` | packages/repositories/src/evidence.ts:734-830 | the item takes the state found, at the next version, and nothing else changes: for a digest whether the current file's bytes match it, or that they could not be read; for a source or professional judgement that judgement; exactly when the role, the item, its state and its version allow it, a professional one for a solicitor or adviser only; otherwise the first check that fails is the answer |
| `EvidenceFiles.EvidenceRepository.MarkEvidenceUnavailable` | packages/repositories/src/evidence.ts:950-994 | the current file becomes unavailable and the item says so at its next version, nothing else changing; otherwise the first check that fails is the answer |
| `Overlaps.StepKeepsRows` | packages/repositories/src/evidence.ts:657-697 | every step of every interleaving, safe or not, keeps versions 1..n in order, links in place and the newest file current |
| `Overlaps.RunKeepsRows` | packages/repositories/src/evidence.ts:615-724 | so over every run |
| `Overlaps.OverlapLoses` | packages/repositories/src/evidence.ts:636-719 | an attach not safe to begin can, nothing else failing, cost the file that is recorded its bytes |
| `Overlaps.OverlapExactly` | packages/repositories/src/evidence.ts:636-719 | an attach is safe to begin exactly when no run that goes on from there, beginning only what is safe, loses a recorded file's bytes |
| `Judgements.GroundedExactly` | packages/repositories/src/evidence.ts:726-797 | over every run, an item's current file was read, matched and recorded so exactly when a digest check began and recorded it since the item's last committed attach |
| `Judgements.GroundedSince` | packages/repositories/src/evidence.ts:799-803 | where callers pass versions they have seen, exactly when one recorded it since |
| `Judgements.StaleCheck` | packages/repositories/src/evidence.ts:757-803 | a check asked for one version ahead records a match of the file before the one then attached |
| `Judgements.CarriedOver` | packages/repositories/src/evidence.ts:674-686 | attaching a file leaves the verification state alone, so an item checked once is accepted with a new file nobody read |
| `Judgements.UncheckedJudgement` | packages/repositories/src/evidence.ts:779-786 | any item, checked or not, with a file or without, can be marked unavailable and then accepted |
| `Judgements.UnreadJudgement` | packages/repositories/src/evidence.ts:764-786 | a digest check that could not read the bytes opens the way to acceptance too |
| `Judgements.GuardExactly` | packages/repositories/src/evidence.ts:776-786 | an item stops being `unverified` exactly when some digest check's outcome is recorded or it is marked unavailable |
| `Calibration.ExpectedCalibrationError` | packages/reliability/src/metrics.ts:100-127 | null exactly for no predictions, an error exactly for a bad bucket count or a confidence outside zero to one; otherwise, per prediction, the sum over the equal intervals of confidence of how far the total confidence in each is from its number of correct predictions |
| `Calibration.Fill` | packages/reliability/src/metrics.ts:107-117 | bucket i holds exactly the predictions whose confidence falls in the i-th of the equal intervals, in order, or the first out of range refuses the call |
| `Calibration.BucketExactly` | packages/reliability/src/metrics.ts:115 | for a confidence c from zero to one, bucket i of b is the one with i at most c times b and c times b below i + 1, or i the last |
| `Calibration.EceExactly` | packages/reliability/src/metrics.ts:107-126 | the error is the sum over those intervals |
| `Calibration.Accumulate` | packages/reliability/src/metrics.ts:119-126 | the weighted sum over non-empty buckets is the expected calibration error |
| `Calibration.ShareIsGap` | packages/reliability/src/metrics.ts:121-124 | a bucket's weighted distance of means is its absolute summed gap per prediction |
| `Calibration.BrierScore` | packages/reliability/src/metrics.ts:130-136 | the mean squared gap, or null for no predictions |
| `Calibration.BucketsPartition` | packages/reliability/src/metrics.ts:107-117 | the buckets together hold every prediction once |
| `Calibration.EceBounds` | packages/reliability/src/metrics.ts:100-136 | for any bucket count: the distance of mean confidence and accuracy is at most the error, the error at most one, and its square at most the Brier score |
| `Calibration.SquareOfSum` | packages/reliability/src/metrics.ts:130-136 | the Cauchy-Schwarz step behind the last of these, over any number of predictions |
| `Calibration.BucketCoarsens` | packages/reliability/src/metrics.ts:115 | a bucket is the union of k consecutive finer ones, the clamp at confidence one included |
| `Calibration.RefiningNeverLowers` | packages/reliability/src/metrics.ts:100-127 | k times as many buckets never lower the error |
| `RateLimit.MemoryCounter.Increment` | packages/ratelimit/src/index.ts:205-211 | the list is pruned to the window and this request added, and its length is the count |
| `RateLimit.MemoryCounter.Sweep` | packages/ratelimit/src/index.ts:214-221 | every list loses exactly what is older than the window; with a window at least each key's own no later answer changes |
| `RateLimit.SweepExactly` | packages/ratelimit/src/index.ts:213-221 | a sweep leaves a key's answers as they were exactly when nothing it still counts is old enough to be swept |
| `RateLimit.SweptExactly` | packages/ratelimit/src/index.ts:214-221 | a sweep leaves of every list exactly what is later than its cutoff, and no empty list |
| `RateLimit.PruneAgrees` | packages/ratelimit/src/index.ts:205-211 | pruning at a cutoff is invisible at every later one |
| `RateLimit.AdmissionsBounded` | packages/ratelimit/src/index.ts:111-156 | of the times ever recorded at most `limit` are admitted in any half-open interval of window length |
| `RateLimit.GrantedBounded` | packages/ratelimit/src/index.ts:111-221 | of the decisions returned over any run of requests and sweeps at most `limit` allow in any half-open interval of window length, if no sweep is narrower |
| `RateLimit.NarrowSweepGrants` | packages/ratelimit/src/index.ts:213-221 | a narrower sweep lets two through where one is the limit |
| `RateLimit.JudgeAdmits` | packages/ratelimit/src/index.ts:128-155 | a counted decision allows exactly when the key's full history admits the request, whatever has been pruned before the window |
| `RateLimit.JudgeExactly` | packages/ratelimit/src/index.ts:111-156 | the decision in full: without a subject or a counter an open policy allows and a closed one refuses; otherwise this request is one more than the times under the policy's and subject's key later than the window's start, allowed within the limit, with what remains |
| `RateLimit.RecordedExactly` | packages/ratelimit/src/index.ts:205-211 | a counted request leaves its key's list with exactly the times inside the window and this one at its end, and no other list changed; one that is not counted changes nothing |
| `RateLimit.MemoryCounter.Check` | packages/ratelimit/src/index.ts:111-156 | decides on the lists as they are; while time does not run backwards and the key keeps its window that is the decision over the full history; a missing subject or an unreachable counter answers by the failure mode and records nothing |
| `RateLimit.MemoryCounter.CheckAll` | packages/ratelimit/src/index.ts:164-192 | identity policies first; the first refusal is the answer and nothing after it is recorded; otherwise the last policy's answer; on the same terms each answer is the one over the full history |
| `RateLimit.IdentityFirstKeeps` | packages/ratelimit/src/index.ts:170-172 | the ordering keeps every policy and puts no address policy before an identity policy |
| `RateLimit.JudgedOnOwnSubject` | packages/ratelimit/src/index.ts:174-180 | callers who agree on what the policies ask about, identity or address, get the same answer and leave the same lists |
| `RateLimit.OtherKeysUncounted` | packages/ratelimit/src/index.ts:174-180 | policies consulted record under no key but their own |
| `Chunker.ChunkStatutoryText` | services/ingestion/src/index.ts:38-90 | emits the greedy grouping of the trimmed non-empty paragraphs, numbered from zero, each with its locator, a quarter of its length rounded up and its checksum; the texts joined by blank lines are those paragraphs joined the same way, and hold every character of the input that is not a space, in order |
| `Chunker.SplitAtBlankLines` | services/ingestion/src/index.ts:43 | no paragraph holds two new lines with nothing but spaces between them |
| `Chunker.SplitRejoins` | services/ingestion/src/index.ts:43 | the text is its paragraphs with blank lines between them, as they stood: it is split nowhere else |
| `Chunker.SplitInk` | services/ingestion/src/index.ts:43 | splitting loses nothing but spaces |
| `Chunker.LocatorExactly` | services/ingestion/src/index.ts:53-66 | a chunk's locator is its own last marker, or one before it, exactly when the next chunk opens with no other |
| `Chunker.LastMarkerExactly` | services/ingestion/src/index.ts:53-57 | the locator carried along is the marker of the last paragraph that opens with one |
| `Chunker.ChunkingGroups` | services/ingestion/src/index.ts:49-74 | the grouping is the paragraphs in order, each group passing the size test |
| `Chunker.NothingLost` | services/ingestion/src/index.ts:73 | joining the groups' texts is joining their paragraphs |
| `Chunker.FitsLength` | services/ingestion/src/index.ts:59 | a chunk of several paragraphs is at most two characters over the target |
| `Chunker.FewestChunks` | services/ingestion/src/index.ts:49-87 | no in-order grouping that passes the same size test uses fewer chunks |
| `Chunker.TrimTight` | services/ingestion/src/index.ts:60 | trimming a buffer of trimmed paragraphs changes nothing |
| `Prelude.SpacesExactly` | services/ingestion/src/index.ts:50 | what trimming removes are the white space and line terminator characters of ECMA-262 |
| `Prelude.TrimExactly` | services/ingestion/src/index.ts:50 | trimming cuts those at both ends, all of them and nothing else |

## Left out

- SQL text, pools, drivers and migrations: tables are maps and sequences, their constraints part of the guards.
- A commit whose answer is lost: an attach that took a committed transaction for a failed one would remove referenced
  bytes; the evidence results assume the answer is true.
- Reads other than `readGraph`, `#hydrate`'s inverse map and availability: selections and orderings of rows already
  modelled. Read permissions with them.
- Event and audit rows written beside each change, apart from the log itself: they are inserted in the same
  transaction.
- `decisionCoversDigest`: a decision records the digest it was given, and no stored subject is compared with it.
- `recordDeadlineEvent`, `linkTaskEvidence`, `recordProvenance` and `recordEvidenceDerivation`: insertions with no
  invariant of their own.
- Statuses `met`, `missed` and `withdrawn` of deadlines, `awaiting_material` and `expired` of reviews, `in_progress`,
  `blocked` and `awaiting_review` of tasks: no modelled call sets them, though the rules treat them as the code does.
- `Date`, `NaN` and class instances inside payloads, and how a number is printed: a number is its printed text.
- SHA-256 itself, rounding in metrics, date parsing, timezones, and the regular expression that finds a section
  marker, a parameter here; the chunk id, its index padded.
- `EvidenceFiles.EvidenceRepository.CreateEvidenceItem`: the provenance row written beside the item is validated and
  then not kept.
- `Registry.ValidateRegistry`: the wording of the messages, and the shapes of fields that the types already give.
- `KnowledgeGraph.LegalGraph.WhyIncluded`: which of several explaining edges is reported for a node the start does not
  point at depends on insertion order and is not promised.
- The words of a refusal, of a rate-limit message and of an invariant's next action: which refusal, which decision and
  which action are modelled.
- `materialFor`, `orphans`, `unsourcedAgentAssertions` and the other ratios of the metrics: filters and quotients.
- `packages/readiness`: the same search and the same chain as the registry and the audit log.
