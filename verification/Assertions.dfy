/** The evidence-graph repository (packages/repositories/src/graph.ts and graph-model.ts): edges carry assertions, an
    assertion is replaced by another and never edited, and an edge is retired and never removed. */
module Assertions {
  import opened Prelude
  import opened CaseTables

  datatype NodeType = Evidence | TimelineEvent | Person | Issue | ClaimNode | DocumentNode | DeadlineNode
  datatype Relationship =
    | Supports | Contradicts | Corroborates | Supersedes | RefersTo | DerivedFrom | Concerns | Precedes
  datatype AssertionType = MachineProposed | SourceBacked | HumanConfirmed | Disputed
  datatype AsserterType = User | Agent

  datatype Claim = Claim(kind: AssertionType, byType: AsserterType, byId: string, execution: Option<string>,
                         reason: string)
  datatype Assertion = Assertion(id: Id, edge: Id, claim: Claim, supersedes: Option<Id>)
  datatype Node = Node(caseId: Id, nodeType: NodeType, subject: string, text: string)

  /** `retired` is who retired the edge and why. */
  datatype Edge = Edge(caseId: Id, from: Id, to: Id, relationship: Relationship, retired: Option<(Id, string)>)
  datatype Link = Link(assertion: Id, evidence: Id, locator: string)

  /** `evidence` maps each stored evidence item to its case; `assertions` are in the order they were inserted. */
  datatype Graph = Graph(nodes: map<Id, Node>, edges: map<Id, Edge>, assertions: seq<Assertion>, links: seq<Link>,
                         evidence: map<Id, Id>)

  datatype Operation =
    | CreateNode(actor: Actor, caseId: Id, id: Id, node: Node)
    | CreateEdge(actor: Actor, caseId: Id, id: Id, edge: Edge, assertionId: Id, claim: Claim)
    | Assert(actor: Actor, caseId: Id, edgeId: Id, id: Id, claim: Claim, supersedes: Option<Id>)
    | Cite(actor: Actor, caseId: Id, link: Link)
    | Invalidate(actor: Actor, caseId: Id, edgeId: Id, reason: string)

  // ---------- what each call does ----------

  predicate ValidClaim(claim: Claim) {
    && !Blank(claim.byId) && !Blank(claim.reason)
    && (claim.kind == MachineProposed ==> claim.execution.GetOr("") != "")
    && (claim.kind == HumanConfirmed ==> claim.byType == User)
  }

  predicate InCase(g: Graph, edgeId: Id, caseId: Id) {
    edgeId in g.edges && g.edges[edgeId].caseId == caseId
  }

  predicate NodeInCase(g: Graph, id: Id, caseId: Id) {
    id in g.nodes && g.nodes[id].caseId == caseId
  }

  predicate Known(assertions: seq<Assertion>, id: Id) {
    exists i :: 0 <= i < |assertions| && assertions[i].id == id
  }

  predicate OnEdge(assertions: seq<Assertion>, id: Id, edgeId: Id) {
    exists i :: 0 <= i < |assertions| && assertions[i].id == id && assertions[i].edge == edgeId
  }

  predicate Replaced(assertions: seq<Assertion>, id: Id) {
    exists i :: 0 <= i < |assertions| && assertions[i].supersedes == Some(id)
  }

  predicate SameRelationship(a: Edge, b: Edge) {
    a.caseId == b.caseId && a.from == b.from && a.to == b.to && a.relationship == b.relationship
  }

  predicate AlreadyLive(g: Graph, edge: Edge) {
    exists id :: id in g.edges && g.edges[id].retired.None? && SameRelationship(g.edges[id], edge)
  }

  predicate Cited(g: Graph, assertion: Id, evidence: Id) {
    exists k :: 0 <= k < |g.links| && g.links[k].assertion == assertion && g.links[k].evidence == evidence
  }

  /** The assertion is on an edge of this case. */
  predicate AssertedIn(g: Graph, id: Id, caseId: Id) {
    exists i :: 0 <= i < |g.assertions| && g.assertions[i].id == id && InCase(g, g.assertions[i].edge, caseId)
  }

  predicate SubjectTaken(g: Graph, node: Node) {
    exists id :: id in g.nodes && g.nodes[id].caseId == node.caseId && g.nodes[id].nodeType == node.nodeType
      && g.nodes[id].subject == node.subject
  }

  predicate Enabled(g: Graph, op: Operation) {
    MayWrite(op.actor) &&
    match op
    case CreateNode(_, caseId, id, node) =>
      !Blank(node.subject) && !Blank(node.text) && node.caseId == caseId && id !in g.nodes && !SubjectTaken(g, node)
    case CreateEdge(_, caseId, id, edge, assertionId, claim) =>
      && ValidClaim(claim) && edge.from != edge.to && edge.caseId == caseId && edge.retired.None?
      && NodeInCase(g, edge.from, caseId) && NodeInCase(g, edge.to, caseId)
      && id !in g.edges && !Known(g.assertions, assertionId) && !AlreadyLive(g, edge)
    case Assert(_, caseId, edgeId, id, claim, supersedes) =>
      && ValidClaim(claim) && InCase(g, edgeId, caseId) && !Known(g.assertions, id)
      && (supersedes.Some? ==>
            OnEdge(g.assertions, supersedes.value, edgeId) && !Replaced(g.assertions, supersedes.value))
    case Cite(_, caseId, link) =>
      && !Blank(link.locator) && AssertedIn(g, link.assertion, caseId)
      && link.evidence in g.evidence && g.evidence[link.evidence] == caseId && !Cited(g, link.assertion, link.evidence)
    case Invalidate(_, caseId, edgeId, reason) =>
      !Blank(reason) && InCase(g, edgeId, caseId) && g.edges[edgeId].retired.None?
  }

  function Effect(g: Graph, op: Operation): Graph
    requires Enabled(g, op)
  {
    match op
    case CreateNode(_, _, id, node) => g.(nodes := g.nodes[id := node])
    case CreateEdge(_, _, id, edge, assertionId, claim) =>
      g.(edges := g.edges[id := edge], assertions := g.assertions + [Assertion(assertionId, id, claim, None)])
    case Assert(_, _, edgeId, id, claim, supersedes) =>
      g.(assertions := g.assertions + [Assertion(id, edgeId, claim, supersedes)])
    case Cite(_, _, link) => g.(links := g.links + [link])
    case Invalidate(actor, _, edgeId, reason) =>
      g.(edges := g.edges[edgeId := g.edges[edgeId].(retired := Some((actor.id, reason)))])
  }

  function Step(g: Graph, op: Operation): Graph {
    if Enabled(g, op) then Effect(g, op) else g
  }

  function Run(g: Graph, ops: seq<Operation>): Graph {
    if ops == [] then g else Step(Run(g, ops[..|ops| - 1]), ops[|ops| - 1])
  }

  // ---------- which answer a call gets ----------

  /** Why a call is refused when no statement fails of itself, in the order of its checks. */
  function RefusalOf(g: Graph, op: Operation): Option<Refusal> {
    match op
    case CreateNode(actor, caseId, id, node) =>
      if Blank(node.subject) || Blank(node.text) then Some(Invalid)
      else if !MayWrite(actor) then Some(RefusalFor(actor))
      else if SubjectTaken(g, node) then Some(Conflict)
      else if id in g.nodes then Some(Unreachable)
      else None
    case CreateEdge(actor, caseId, id, edge, assertionId, claim) =>
      if !ValidClaim(claim) || edge.from == edge.to then Some(Invalid)
      else if !MayWrite(actor) then Some(RefusalFor(actor))
      else if !NodeInCase(g, edge.from, caseId) || !NodeInCase(g, edge.to, caseId) then Some(NotPersisted)
      else if id in g.edges then Some(Unreachable)
      else if AlreadyLive(g, edge) then Some(Conflict)
      else if Known(g.assertions, assertionId) then Some(Unreachable)
      else None
    case Assert(actor, caseId, edgeId, id, claim, supersedes) =>
      if !ValidClaim(claim) then Some(Invalid)
      else if !MayWrite(actor) then Some(RefusalFor(actor))
      else if !InCase(g, edgeId, caseId) then Some(NotPersisted)
      else if supersedes.Some? && !OnEdge(g.assertions, supersedes.value, edgeId) then Some(NotPersisted)
      else if Known(g.assertions, id) then Some(Unreachable)
      else if supersedes.Some? && Replaced(g.assertions, supersedes.value) then Some(Conflict)
      else None
    case Cite(actor, caseId, link) =>
      if Blank(link.locator) then Some(Invalid)
      else if !MayWrite(actor) then Some(RefusalFor(actor))
      else if !AssertedIn(g, link.assertion, caseId) then Some(NotPersisted)
      else if link.evidence !in g.evidence || g.evidence[link.evidence] != caseId then Some(NotPersisted)
      else if Cited(g, link.assertion, link.evidence) then Some(Conflict)
      else None
    case Invalidate(actor, caseId, edgeId, reason) =>
      if Blank(reason) then Some(Invalid)
      else if !MayWrite(actor) then Some(RefusalFor(actor))
      else if !InCase(g, edgeId, caseId) then Some(NotPersisted)
      else if g.edges[edgeId].retired.Some? then Some(Conflict)
      else None
  }

  /** A new node or edge is of the case it is created in, and an edge starts out live. */
  predicate WellFormed(op: Operation) {
    && (op.CreateNode? ==> op.node.caseId == op.caseId)
    && (op.CreateEdge? ==> op.edge.caseId == op.caseId && op.edge.retired.None?)
  }

  lemma RefusedExactly(g: Graph, op: Operation)
    requires WellFormed(op)
    ensures RefusalOf(g, op).None? <==> Enabled(g, op)
  {
  }

  /** An outsider is told nothing about what is recorded: to them it is as if what they ask for did not exist. Only a
      member who may not write is told so. */
  lemma HiddenAlike(g: Graph, h: Graph, op: Operation)
    requires !Writer(op.actor)
    ensures RefusalOf(g, op) == RefusalOf(h, op)
    ensures RefusalOf(g, op) in {Some(Invalid), Some(if op.actor.belongs then Forbidden else NotPersisted)}
  {
  }

  // ---------- what every state keeps ----------

  /** Supersession runs backwards in time within one edge, each assertion replaced at most once. */
  ghost predicate Chained(assertions: seq<Assertion>) {
    && (forall i, j :: 0 <= i < j < |assertions| ==> assertions[i].id != assertions[j].id)
    && (forall i :: 0 <= i < |assertions| && assertions[i].supersedes.Some? ==>
          OnEdge(assertions[..i], assertions[i].supersedes.value, assertions[i].edge))
    && (forall i, j :: 0 <= i < j < |assertions| && assertions[i].supersedes.Some? ==>
          assertions[i].supersedes != assertions[j].supersedes)
  }

  ghost predicate HasAssertion(assertions: seq<Assertion>, edgeId: Id) {
    exists i :: 0 <= i < |assertions| && assertions[i].edge == edgeId
  }

  predicate EdgeSound(nodes: map<Id, Node>, edge: Edge) {
    && edge.from != edge.to
    && edge.from in nodes && nodes[edge.from].caseId == edge.caseId
    && edge.to in nodes && nodes[edge.to].caseId == edge.caseId
  }

  predicate LinkSound(g: Graph, link: Link) {
    && !Blank(link.locator) && link.evidence in g.evidence && AssertedIn(g, link.assertion, g.evidence[link.evidence])
  }

  /** No two live edges state the same relationship between the same nodes. */
  ghost predicate LiveOnce(edges: map<Id, Edge>) {
    forall a, b :: a in edges && b in edges && a != b && edges[a].retired.None? && edges[b].retired.None? ==>
      !(edges[a].caseId == edges[b].caseId && edges[a].relationship == edges[b].relationship
        && edges[a].from == edges[b].from && edges[a].to == edges[b].to)
  }

  /** No subject has two nodes of one type in a case, and no evidence is cited twice for one assertion. */
  ghost predicate NodesOnce(nodes: map<Id, Node>) {
    forall a, b :: a in nodes && b in nodes && a != b ==>
      !(nodes[a].caseId == nodes[b].caseId && nodes[a].nodeType == nodes[b].nodeType
        && nodes[a].subject == nodes[b].subject)
  }

  ghost predicate CitedOnce(links: seq<Link>) {
    forall i, j :: 0 <= i < j < |links| ==>
      links[i].assertion != links[j].assertion || links[i].evidence != links[j].evidence
  }

  /** Somebody and a reason stand behind the claim: an execution behind what a machine proposed, a person behind what is
      called confirmed by one. */
  predicate Attributed(claim: Claim) {
    && !Blank(claim.byId) && !Blank(claim.reason)
    && match claim.kind
       case MachineProposed => claim.execution.Some? && claim.execution.value != ""
       case HumanConfirmed => claim.byType == User
       case SourceBacked => true
       case Disputed => true
  }

  ghost predicate EdgesSound(nodes: map<Id, Node>, edges: map<Id, Edge>) {
    forall id :: id in edges ==> EdgeSound(nodes, edges[id])
  }

  ghost predicate EdgesAsserted(edges: set<Id>, assertions: seq<Assertion>) {
    forall id :: id in edges ==> HasAssertion(assertions, id)
  }

  ghost predicate AssertionsSound(edges: set<Id>, assertions: seq<Assertion>) {
    forall i :: 0 <= i < |assertions| ==> assertions[i].edge in edges && Attributed(assertions[i].claim)
  }

  ghost predicate LinksSound(g: Graph) {
    forall k :: 0 <= k < |g.links| ==> LinkSound(g, g.links[k])
  }

  /** Every edge joins two nodes of its case and carries an assertion; supersession is a set of chains; every citation
      is of evidence in its own case, with a place to look. */
  ghost predicate Inv(g: Graph) {
    && EdgesSound(g.nodes, g.edges) && LiveOnce(g.edges) && EdgesAsserted(g.edges.Keys, g.assertions)
    && AssertionsSound(g.edges.Keys, g.assertions) && Chained(g.assertions) && LinksSound(g)
    && NodesOnce(g.nodes) && CitedOnce(g.links)
  }

  /** When each call goes through. */
  lemma EnabledExactly(g: Graph, op: Operation)
    ensures op.CreateNode? ==>
      (Enabled(g, op) <==>
         && Writer(op.actor) && !Blank(op.node.subject) && !Blank(op.node.text) && op.node.caseId == op.caseId
         && op.id !in g.nodes
         && forall id :: id in g.nodes && g.nodes[id].nodeType == op.node.nodeType ==>
              g.nodes[id].caseId != op.caseId || g.nodes[id].subject != op.node.subject)
    ensures op.CreateEdge? ==>
      (Enabled(g, op) <==>
         && Writer(op.actor) && Attributed(op.claim) && op.edge.caseId == op.caseId && op.edge.retired.None?
         && op.edge.from != op.edge.to && op.id !in g.edges
         && op.edge.from in g.nodes && g.nodes[op.edge.from].caseId == op.caseId
         && op.edge.to in g.nodes && g.nodes[op.edge.to].caseId == op.caseId
         && (forall i :: 0 <= i < |g.assertions| ==> g.assertions[i].id != op.assertionId)
         && forall id :: id in g.edges && g.edges[id].caseId == op.caseId && g.edges[id].retired.None? ==>
              !(g.edges[id].from == op.edge.from && g.edges[id].to == op.edge.to
                && g.edges[id].relationship == op.edge.relationship))
    ensures op.Assert? ==>
      (Enabled(g, op) <==>
         && Writer(op.actor) && Attributed(op.claim) && op.edgeId in g.edges && g.edges[op.edgeId].caseId == op.caseId
         && (forall i :: 0 <= i < |g.assertions| ==> g.assertions[i].id != op.id)
         && (op.supersedes.Some? ==>
               && (exists i :: 0 <= i < |g.assertions| && g.assertions[i].id == op.supersedes.value
                     && g.assertions[i].edge == op.edgeId)
               && forall i :: 0 <= i < |g.assertions| ==> g.assertions[i].supersedes != op.supersedes))
    ensures op.Cite? ==>
      (Enabled(g, op) <==>
         && Writer(op.actor) && !Blank(op.link.locator)
         && op.link.evidence in g.evidence && g.evidence[op.link.evidence] == op.caseId
         && (exists i :: 0 <= i < |g.assertions| && g.assertions[i].id == op.link.assertion
               && g.assertions[i].edge in g.edges && g.edges[g.assertions[i].edge].caseId == op.caseId)
         && forall k :: 0 <= k < |g.links| && g.links[k].assertion == op.link.assertion ==>
              g.links[k].evidence != op.link.evidence)
    ensures op.Invalidate? ==>
      (Enabled(g, op) <==>
         && Writer(op.actor) && !Blank(op.reason) && op.edgeId in g.edges && g.edges[op.edgeId].caseId == op.caseId
         && g.edges[op.edgeId].retired.None?)
  {
  }

  lemma AppendChained(assertions: seq<Assertion>, a: Assertion)
    requires Chained(assertions) && !Known(assertions, a.id)
    requires a.supersedes.Some? ==>
      OnEdge(assertions, a.supersedes.value, a.edge) && !Replaced(assertions, a.supersedes.value)
    ensures Chained(assertions + [a])
  {
    var after := assertions + [a];
    forall i | 0 <= i < |after| && after[i].supersedes.Some?
      ensures OnEdge(after[..i], after[i].supersedes.value, after[i].edge)
    {
      assert after[..i] == assertions[..i];
      if i == |assertions| { assert assertions[..i] == assertions; }
    }
  }

  lemma HasAssertionLater(assertions: seq<Assertion>, a: Assertion, edgeId: Id)
    requires HasAssertion(assertions, edgeId) || a.edge == edgeId
    ensures HasAssertion(assertions + [a], edgeId)
  {
    if a.edge == edgeId {
      assert (assertions + [a])[|assertions|].edge == edgeId;
    } else {
      var i :| 0 <= i < |assertions| && assertions[i].edge == edgeId;
      assert (assertions + [a])[i].edge == edgeId;
    }
  }

  /** What was asserted in a case stays so, whatever is inserted or retired. */
  lemma AssertedLater(g: Graph, after: Graph, id: Id, caseId: Id)
    requires AssertedIn(g, id, caseId) && g.assertions <= after.assertions
    requires forall e :: e in g.edges ==> e in after.edges && after.edges[e].caseId == g.edges[e].caseId
    ensures AssertedIn(after, id, caseId)
  {
    var i :| 0 <= i < |g.assertions| && g.assertions[i].id == id && InCase(g, g.assertions[i].edge, caseId);
    assert after.assertions[i].id == id && InCase(after, after.assertions[i].edge, caseId);
  }

  /** Nothing recorded is lost: nodes and assertions stay as they are, and an edge only ever goes from live to retired.
      */
  ghost predicate Follows(before: Graph, after: Graph) {
    && before.assertions <= after.assertions && before.links <= after.links && before.evidence == after.evidence
    && (forall id :: id in before.nodes ==> id in after.nodes && after.nodes[id] == before.nodes[id])
    && (forall id :: id in before.edges ==> id in after.edges && EdgeFollows(before.edges[id], after.edges[id]))
  }

  predicate EdgeFollows(before: Edge, after: Edge) {
    after.(retired := None) == before.(retired := None) && (before.retired.Some? ==> after.retired == before.retired)
  }

  lemma StepFollows(g: Graph, op: Operation)
    ensures Follows(g, Step(g, op))
  {
  }

  lemma FollowsTrans(a: Graph, b: Graph, c: Graph)
    requires Follows(a, b) && Follows(b, c)
    ensures Follows(a, c)
  {
    forall id | id in a.edges ensures id in c.edges && EdgeFollows(a.edges[id], c.edges[id]) {
      assert EdgeFollows(a.edges[id], b.edges[id]) && EdgeFollows(b.edges[id], c.edges[id]);
    }
  }

  lemma LinksStaySound(g: Graph, after: Graph)
    requires LinksSound(g) && Follows(g, after)
    ensures LinksSound(after.(links := g.links))
  {
    forall k | 0 <= k < |g.links| ensures LinkSound(after.(links := g.links), g.links[k]) {
      assert LinkSound(g, g.links[k]);
      forall e | e in g.edges ensures e in after.edges && after.edges[e].caseId == g.edges[e].caseId {
        assert EdgeFollows(g.edges[e], after.edges[e]);
      }
      AssertedLater(g, after.(links := g.links), g.links[k].assertion, g.evidence[g.links[k].evidence]);
    }
  }

  lemma StepKeepsInv(g: Graph, op: Operation)
    requires Inv(g)
    ensures Inv(Step(g, op))
  {
    if Enabled(g, op) {
      StepFollows(g, op);
      LinksStaySound(g, Effect(g, op));
      match op {
        case CreateNode(_, _, _, _) => NodeKeepsInv(g, op);
        case CreateEdge(_, _, id, edge, assertionId, claim) =>
          EdgeKeepsInv(g, id, edge, Assertion(assertionId, id, claim, None), Effect(g, op));
        case Assert(_, _, edgeId, id, claim, supersedes) =>
          AssertKeepsInv(g, Assertion(id, edgeId, claim, supersedes), Effect(g, op));
        case Cite(_, _, link) => CiteKeepsInv(g, link, Effect(g, op));
        case Invalidate(_, _, edgeId, _) => RetireKeepsInv(g, edgeId, Effect(g, op));
      }
    }
  }

  lemma NodeKeepsInv(g: Graph, op: Operation)
    requires Inv(g) && op.CreateNode? && Enabled(g, op) && LinksSound(Effect(g, op))
    ensures Inv(Effect(g, op))
  {
    forall id | id in g.edges
      ensures EdgeSound(Effect(g, op).nodes, g.edges[id])
    {
      assert EdgeSound(g.nodes, g.edges[id]);
    }
  }

  lemma AssertKeepsInv(g: Graph, a: Assertion, after: Graph)
    requires Inv(g) && a.edge in g.edges && ValidClaim(a.claim) && !Known(g.assertions, a.id)
    requires a.supersedes.Some? ==>
      OnEdge(g.assertions, a.supersedes.value, a.edge) && !Replaced(g.assertions, a.supersedes.value)
    requires after == g.(assertions := g.assertions + [a]) && LinksSound(after)
    ensures Inv(after)
  {
    AppendChained(g.assertions, a);
    forall id | id in g.edges ensures HasAssertion(after.assertions, id) { HasAssertionLater(g.assertions, a, id); }
  }

  lemma EdgeKeepsInv(g: Graph, id: Id, edge: Edge, a: Assertion, after: Graph)
    requires Inv(g) && id !in g.edges && EdgeSound(g.nodes, edge) && !AlreadyLive(g, edge)
    requires a.edge == id && a.supersedes.None? && ValidClaim(a.claim) && !Known(g.assertions, a.id)
    requires after == g.(edges := g.edges[id := edge], assertions := g.assertions + [a]) && LinksSound(after)
    ensures Inv(after)
  {
    AppendChained(g.assertions, a);
    LiveOnceAdd(g.edges, id, edge);
    EdgesAssertedAdd(g.edges.Keys, g.assertions, id, a);
    AssertionsSoundAdd(g.edges.Keys, g.assertions, id, a);
    EdgesSoundAdd(g.nodes, g.edges, id, edge);
    assert after.edges.Keys == g.edges.Keys + {id};
  }

  lemma EdgesSoundAdd(nodes: map<Id, Node>, edges: map<Id, Edge>, id: Id, edge: Edge)
    requires EdgesSound(nodes, edges) && EdgeSound(nodes, edge)
    ensures EdgesSound(nodes, edges[id := edge])
  {
  }

  lemma EdgesAssertedAdd(edges: set<Id>, assertions: seq<Assertion>, id: Id, a: Assertion)
    requires EdgesAsserted(edges, assertions) && a.edge == id
    ensures EdgesAsserted(edges + {id}, assertions + [a])
  {
    forall e | e in edges + {id} ensures HasAssertion(assertions + [a], e) { HasAssertionLater(assertions, a, e); }
  }

  lemma AssertionsSoundAdd(edges: set<Id>, assertions: seq<Assertion>, id: Id, a: Assertion)
    requires AssertionsSound(edges, assertions) && a.edge == id && ValidClaim(a.claim)
    ensures AssertionsSound(edges + {id}, assertions + [a])
  {
  }

  lemma CiteKeepsInv(g: Graph, link: Link, after: Graph)
    requires Inv(g) && LinkSound(g, link) && !Cited(g, link.assertion, link.evidence)
    requires after == g.(links := g.links + [link])
    ensures Inv(after)
  {
    forall k | 0 <= k < |after.links| ensures LinkSound(after, after.links[k]) {
      if k < |g.links| { assert LinkSound(g, g.links[k]); }
    }
  }

  lemma RetireKeepsInv(g: Graph, edgeId: Id, after: Graph)
    requires Inv(g) && edgeId in g.edges && edgeId in after.edges && after.edges[edgeId].retired.Some?
    requires EdgeFollows(g.edges[edgeId], after.edges[edgeId])
    requires after == g.(edges := g.edges[edgeId := after.edges[edgeId]]) && LinksSound(after)
    ensures Inv(after)
  {
    assert EdgeSound(g.nodes, g.edges[edgeId]);
    assert after.edges.Keys == g.edges.Keys;
    assert LiveOnce(after.edges) by { LiveOnceRetire(g.edges, edgeId, after.edges[edgeId]); }
  }

  lemma LiveOnceAdd(edges: map<Id, Edge>, id: Id, edge: Edge)
    requires LiveOnce(edges) && id !in edges
    requires !exists e :: e in edges && edges[e].retired.None? && SameRelationship(edges[e], edge)
    ensures LiveOnce(edges[id := edge])
  {
  }

  lemma LiveOnceRetire(edges: map<Id, Edge>, id: Id, edge: Edge)
    requires LiveOnce(edges) && edge.retired.Some?
    ensures LiveOnce(edges[id := edge])
  {
  }

  lemma {:induction false} RunKeeps(g: Graph, ops: seq<Operation>)
    requires Inv(g)
    ensures Inv(Run(g, ops)) && Follows(g, Run(g, ops))
  {
    if ops != [] {
      var before, op := Run(g, ops[..|ops| - 1]), ops[|ops| - 1];
      RunKeeps(g, ops[..|ops| - 1]);
      StepKeepsInv(before, op);
      StepFollows(before, op);
      FollowsTrans(g, before, Step(before, op));
    }
  }

  // ---------- an edge always has somebody's name on it ----------

  ghost predicate HasCurrent(g: Graph, edgeId: Id, kind: AssertionType) {
    exists i :: 0 <= i < |g.assertions| && g.assertions[i].edge == edgeId && g.assertions[i].claim.kind == kind
      && !Replaced(g.assertions, g.assertions[i].id)
  }

  lemma OriginalEarlier(assertions: seq<Assertion>, i: nat, j: nat)
    requires Chained(assertions) && i < |assertions| && j < |assertions|
    requires assertions[j].supersedes == Some(assertions[i].id)
    ensures i < j && assertions[i].edge == assertions[j].edge
  {
    var k :| 0 <= k < j && assertions[..j][k].id == assertions[i].id && assertions[..j][k].edge == assertions[j].edge;
    assert assertions[k].id == assertions[i].id;
  }

  /** The last assertion inserted on an edge is current: only a later one on the same edge could replace it. */
  lemma {:induction false} LastIsCurrent(assertions: seq<Assertion>, edgeId: Id, n: nat) returns (i: nat)
    requires Chained(assertions) && n <= |assertions| && HasAssertion(assertions[..n], edgeId)
    requires forall j :: n <= j < |assertions| ==> assertions[j].edge != edgeId
    ensures i < n && assertions[i].edge == edgeId && !Replaced(assertions, assertions[i].id)
  {
    if assertions[n - 1].edge != edgeId {
      assert HasAssertion(assertions[..n - 1], edgeId) by {
        var k :| 0 <= k < n && assertions[..n][k].edge == edgeId;
        assert assertions[..n - 1][k].edge == edgeId;
      }
      i := LastIsCurrent(assertions, edgeId, n - 1);
    } else {
      i := n - 1;
      forall j | 0 <= j < |assertions| ensures assertions[j].supersedes != Some(assertions[i].id) {
        if assertions[j].supersedes == Some(assertions[i].id) { OriginalEarlier(assertions, i, j); }
      }
    }
  }

  lemma EveryEdgeHasCurrent(g: Graph, edgeId: Id) returns (kind: AssertionType)
    requires Inv(g) && edgeId in g.edges
    ensures HasCurrent(g, edgeId, kind)
  {
    assert g.assertions[..|g.assertions|] == g.assertions;
    var i := LastIsCurrent(g.assertions, edgeId, |g.assertions|);
    kind := g.assertions[i].claim.kind;
  }

  /** Once an assertion has been replaced it stays replaced, and no later call replaces it again. */
  lemma ReplacedOnce(g: Graph, ops: seq<Operation>, op: Operation, id: Id)
    requires Inv(g) && Replaced(g.assertions, id)
    requires op.Assert? && op.supersedes == Some(id)
    ensures Replaced(Run(g, ops).assertions, id) && !Enabled(Run(g, ops), op)
  {
    RunKeeps(g, ops);
    var i :| 0 <= i < |g.assertions| && g.assertions[i].supersedes == Some(id);
    assert Run(g, ops).assertions[i].supersedes == Some(id);
  }

  // ---------- the weight an edge carries ----------

  function VerificationStateOf(types: seq<AssertionType>): AssertionType {
    if Disputed in types then Disputed
    else if HumanConfirmed in types then HumanConfirmed
    else if SourceBacked in types then SourceBacked
    else MachineProposed
  }

  /** How much a reader must make of each kind; a dispute outweighs everything. */
  function Weight(kind: AssertionType): nat {
    match kind
    case MachineProposed => 0
    case SourceBacked => 1
    case HumanConfirmed => 2
    case Disputed => 3
  }

  /** The state shown is the weightiest of the assertions in force. */
  ghost predicate Weightiest(g: Graph, edgeId: Id, state: AssertionType) {
    && HasCurrent(g, edgeId, state)
    && forall kind :: HasCurrent(g, edgeId, kind) ==> Weight(kind) <= Weight(state)
  }

  // ---------- the read ----------

  /** What the queries returned: the case of each edge asked for, its assertions, and their links with the case of the
      evidence each names. */
  datatype LinkRow = LinkRow(link: Link, resolvedCase: Option<Id>)
  datatype Fetched = Fetched(caseOf: map<Id, Id>, rows: seq<Assertion>, links: seq<LinkRow>)

  datatype Record = Record(assertion: Assertion, supersededBy: Option<Id>, current: bool, evidence: seq<Link>,
                           traceable: Option<bool>)
  datatype EdgeView = EdgeView(id: Id, edge: Edge, live: bool, verification: AssertionType, assertions: seq<Record>)

  /** The last of these rows to name `id` as replaced. */
  function ReplacedBy(rows: seq<Assertion>, id: Id): (r: Option<Id>)
    ensures r.Some? <==> Replaced(rows, id)
  {
    if rows == [] then None
    else if rows[|rows| - 1].supersedes == Some(id) then Some(rows[|rows| - 1].id)
    else
      var front := rows[..|rows| - 1];
      assert forall i :: 0 <= i < |front| ==> front[i] == rows[i];
      ReplacedBy(front, id)
  }

  function EvidenceOf(links: seq<LinkRow>, id: Id): seq<Link> {
    if links == [] then []
    else
      var front, last := EvidenceOf(links[..|links| - 1], id), links[|links| - 1];
      if last.link.assertion == id then front + [last.link] else front
  }

  /** The edge of the first row with this id. */
  function EdgeOf(rows: seq<Assertion>, id: Id): Option<Id> {
    if rows == [] then None else if rows[0].id == id then Some(rows[0].edge) else EdgeOf(rows[1..], id)
  }

  predicate Usable(f: Fetched, l: LinkRow) {
    var edge := EdgeOf(f.rows, l.link.assertion);
    && l.resolvedCase.Some? && edge.Some? && edge.value in f.caseOf && l.resolvedCase == Some(f.caseOf[edge.value])
    && !Blank(l.link.locator)
  }

  function UsableLinks(f: Fetched, n: nat, id: Id): nat
    requires n <= |f.links|
  {
    if n == 0 then 0
    else UsableLinks(f, n - 1, id) + if f.links[n - 1].link.assertion == id && Usable(f, f.links[n - 1]) then 1 else 0
  }

  function TraceabilityOf(kind: AssertionType, usable: nat): Option<bool> {
    if kind != SourceBacked then None else Some(usable > 0)
  }

  function RecordOf(f: Fetched, a: Assertion): Record {
    var replacement := ReplacedBy(f.rows, a.id);
    Record(a, replacement, replacement.None?, EvidenceOf(f.links, a.id),
           TraceabilityOf(a.claim.kind, UsableLinks(f, |f.links|, a.id)))
  }

  predicate Shown(f: Fetched, a: Assertion, edgeId: Id, all: bool) {
    a.edge == edgeId && (all || ReplacedBy(f.rows, a.id).None?)
  }

  /** The records of one edge among the first `n` rows, in their order. */
  function Listing(f: Fetched, n: nat, edgeId: Id, all: bool): seq<Record>
    requires n <= |f.rows|
  {
    if n == 0 then []
    else
      var front, a := Listing(f, n - 1, edgeId, all), f.rows[n - 1];
      if Shown(f, a, edgeId, all) then front + [RecordOf(f, a)] else front
  }

  ghost predicate Grouped(f: Fetched, n: nat, all: bool, byEdge: map<Id, seq<Record>>)
    requires n <= |f.rows|
  {
    && (forall e :: e in byEdge <==> Listing(f, n, e, all) != [])
    && (forall e :: e in byEdge ==> byEdge[e] == Listing(f, n, e, all))
  }

  lemma GroupedNext(f: Fetched, n: nat, all: bool, byEdge: map<Id, seq<Record>>)
    requires n < |f.rows| && Grouped(f, n, all, byEdge)
    ensures var a := f.rows[n];
      var list := if a.edge in byEdge then byEdge[a.edge] else [];
      Grouped(f, n + 1, all, if Shown(f, a, a.edge, all) then byEdge[a.edge := list + [RecordOf(f, a)]] else byEdge)
  {
  }

  method AssertionsFor(f: Fetched, all: bool) returns (byEdge: map<Id, seq<Record>>)
    requires forall j :: 0 <= j < |f.rows| ==> f.rows[j].edge in f.caseOf
    ensures forall e :: e in byEdge <==> Listing(f, |f.rows|, e, all) != []
    ensures forall e :: e in byEdge ==> byEdge[e] == Listing(f, |f.rows|, e, all)
  {
    byEdge := map[];
    if f.caseOf == map[] { return; }
    var replacedBy := ReplacedByMap(f.rows);
    var evidenceOf, usableOf := EvidenceMaps(f);
    for i := 0 to |f.rows|
      invariant Grouped(f, i, all, byEdge)
    {
      var a := f.rows[i];
      GroupedNext(f, i, all, byEdge);
      var supersededBy := if a.id in replacedBy then Some(replacedBy[a.id]) else None;
      if !all && supersededBy.Some? { continue; }
      var record := Record(a, supersededBy, supersededBy.None?, if a.id in evidenceOf then evidenceOf[a.id] else [],
                           TraceabilityOf(a.claim.kind, if a.id in usableOf then usableOf[a.id] else 0));
      assert record == RecordOf(f, a);
      var list := if a.edge in byEdge then byEdge[a.edge] else [];
      byEdge := byEdge[a.edge := list + [record]];
    }
  }

  method ReplacedByMap(rows: seq<Assertion>) returns (replacedBy: map<Id, Id>)
    ensures forall id :: id in replacedBy <==> ReplacedBy(rows, id).Some?
    ensures forall id :: id in replacedBy ==> Some(replacedBy[id]) == ReplacedBy(rows, id)
  {
    replacedBy := map[];
    for i := 0 to |rows|
      invariant forall id :: id in replacedBy <==> ReplacedBy(rows[..i], id).Some?
      invariant forall id :: id in replacedBy ==> Some(replacedBy[id]) == ReplacedBy(rows[..i], id)
    {
      assert rows[..i + 1][..i] == rows[..i];
      if rows[i].supersedes.Some? { replacedBy := replacedBy[rows[i].supersedes.value := rows[i].id]; }
    }
    assert rows[..|rows|] == rows;
  }

  method EvidenceMaps(f: Fetched) returns (evidenceOf: map<Id, seq<Link>>, usableOf: map<Id, nat>)
    ensures forall id :: (if id in evidenceOf then evidenceOf[id] else []) == EvidenceOf(f.links, id)
    ensures forall id :: (if id in usableOf then usableOf[id] else 0) == UsableLinks(f, |f.links|, id)
  {
    evidenceOf, usableOf := map[], map[];
    for i := 0 to |f.links|
      invariant forall id :: (if id in evidenceOf then evidenceOf[id] else []) == EvidenceOf(f.links[..i], id)
      invariant forall id :: (if id in usableOf then usableOf[id] else 0) == UsableLinks(f, i, id)
    {
      assert f.links[..i + 1][..i] == f.links[..i];
      var l := f.links[i];
      var id := l.link.assertion;
      evidenceOf := evidenceOf[id := (if id in evidenceOf then evidenceOf[id] else []) + [l.link]];
      if Usable(f, l) { usableOf := usableOf[id := (if id in usableOf then usableOf[id] else 0) + 1]; }
    }
    assert f.links[..|f.links|] == f.links;
  }

  // ---------- what the read shows ----------

  function CurrentTypes(records: seq<Record>): seq<AssertionType> {
    if records == [] then []
    else
      var front, last := CurrentTypes(records[..|records| - 1]), records[|records| - 1];
      if last.current then front + [last.assertion.claim.kind] else front
  }

  function ToEdge(id: Id, edge: Edge, assertions: seq<Record>): EdgeView {
    EdgeView(id, edge, edge.retired.None?, VerificationStateOf(CurrentTypes(assertions)), assertions)
  }

  /** The queries answered from this state, for these edges: every assertion on them once, every citation of those. */
  ghost predicate Fetches(g: Graph, ids: set<Id>, f: Fetched) {
    && f.caseOf.Keys == ids
    && (forall e :: e in ids ==> e in g.edges && f.caseOf[e] == g.edges[e].caseId)
    && RowsOf(g.assertions, ids, f.rows)
    && (forall l :: l in f.links <==> FetchedLink(g, f.rows, l))
  }

  ghost predicate RowsOf(assertions: seq<Assertion>, ids: set<Id>, rows: seq<Assertion>) {
    && (forall a :: a in rows <==> OfEdges(assertions, ids, a))
    && (forall i, j :: 0 <= i < j < |rows| ==> rows[i].id != rows[j].id)
  }

  predicate OfEdges(assertions: seq<Assertion>, ids: set<Id>, a: Assertion) {
    a.edge in ids && exists i :: 0 <= i < |assertions| && assertions[i] == a
  }

  ghost predicate FetchedLink(g: Graph, rows: seq<Assertion>, l: LinkRow) {
    && l.link in g.links && Known(rows, l.link.assertion)
    && l.resolvedCase == if l.link.evidence in g.evidence then Some(g.evidence[l.link.evidence]) else None
  }

  /** Whatever replaced an assertion is on the same edge, so the rows of the edge show it. */
  lemma ReplacedLocally(assertions: seq<Assertion>, ids: set<Id>, rows: seq<Assertion>, a: Assertion)
    requires Chained(assertions) && RowsOf(assertions, ids, rows) && OfEdges(assertions, ids, a)
    ensures Replaced(rows, a.id) <==> Replaced(assertions, a.id)
  {
    if Replaced(rows, a.id) {
      var i :| 0 <= i < |rows| && rows[i].supersedes == Some(a.id);
      assert OfEdges(assertions, ids, rows[i]);
    }
    if Replaced(assertions, a.id) {
      var j :| 0 <= j < |assertions| && assertions[j].supersedes == Some(a.id);
      var i :| 0 <= i < |assertions| && assertions[i] == a;
      OriginalEarlier(assertions, i, j);
      assert OfEdges(assertions, ids, assertions[j]);
    }
  }

  predicate Lists(records: seq<Record>, a: Assertion) {
    exists k :: 0 <= k < |records| && records[k].assertion == a
  }

  lemma {:induction false} ListingExact(f: Fetched, n: nat, e: Id, all: bool)
    requires n <= |f.rows|
    ensures forall r :: r in Listing(f, n, e, all) ==> r == RecordOf(f, r.assertion)
    ensures forall a :: Lists(Listing(f, n, e, all), a) <==> a in f.rows[..n] && Shown(f, a, e, all)
  {
    if n > 0 {
      ListingExact(f, n - 1, e, all);
      var front, a := Listing(f, n - 1, e, all), f.rows[n - 1];
      assert f.rows[..n] == f.rows[..n - 1] + [a];
      if Shown(f, a, e, all) {
        forall x ensures Lists(front + [RecordOf(f, a)], x) <==> Lists(front, x) || x == a {
          if Lists(front, x) {
            var k :| 0 <= k < |front| && front[k].assertion == x;
            assert (front + [RecordOf(f, a)])[k].assertion == x;
          }
          assert (front + [RecordOf(f, a)])[|front|].assertion == a;
        }
      }
    }
  }

  lemma {:induction false} CurrentTypesExact(records: seq<Record>, kind: AssertionType)
    ensures kind in CurrentTypes(records) <==>
      exists k :: 0 <= k < |records| && records[k].current && records[k].assertion.claim.kind == kind
  {
    if records != [] {
      var front := records[..|records| - 1];
      CurrentTypesExact(front, kind);
      assert forall k :: 0 <= k < |front| ==> front[k] == records[k];
    }
  }

  /** The records of an edge: all of its assertions or just the current ones, each marked as it is. */
  ghost predicate Accurate(assertions: seq<Assertion>, e: Id, records: seq<Record>, all: bool) {
    && (forall a :: Lists(records, a) <==> OfEdges(assertions, {e}, a) && (all || !Replaced(assertions, a.id)))
    && (forall k :: 0 <= k < |records| ==> records[k].current == !Replaced(assertions, records[k].assertion.id))
  }

  /** What a reader sees of an edge: its records, weighed by the current ones alone. */
  ghost predicate Faithful(g: Graph, view: EdgeView, all: bool) {
    && view.id in g.edges && view.edge == g.edges[view.id] && view.live == view.edge.retired.None?
    && Weightiest(g, view.id, view.verification) && Accurate(g.assertions, view.id, view.assertions, all)
    && forall k :: 0 <= k < |view.assertions| ==> Documented(g, view.assertions[k])
  }

  predicate ReplacedAs(assertions: seq<Assertion>, id: Id, later: Id) {
    exists i :: 0 <= i < |assertions| && assertions[i].id == later && assertions[i].supersedes == Some(id)
  }

  /** The record names what replaced the assertion, lists what is cited for it, and calls it traceable if it claims a
      document exactly when something is. */
  ghost predicate Documented(g: Graph, r: Record) {
    && (forall later :: r.supersededBy == Some(later) <==> ReplacedAs(g.assertions, r.assertion.id, later))
    && (forall link :: link in r.evidence <==> link in g.links && link.assertion == r.assertion.id)
    && r.traceable == if r.assertion.claim.kind != SourceBacked then None
                      else Some(exists link :: link in g.links && link.assertion == r.assertion.id)
  }

  lemma {:induction false} ReplacedByNames(rows: seq<Assertion>, id: Id)
    ensures ReplacedBy(rows, id).Some? ==> ReplacedAs(rows, id, ReplacedBy(rows, id).value)
  {
    if rows != [] && rows[|rows| - 1].supersedes != Some(id) {
      ReplacedByNames(rows[..|rows| - 1], id);
    }
  }

  lemma {:induction false} EvidenceOfExact(links: seq<LinkRow>, id: Id, link: Link)
    ensures link in EvidenceOf(links, id) <==>
      exists k :: 0 <= k < |links| && links[k].link == link && link.assertion == id
  {
    if links != [] {
      EvidenceOfExact(links[..|links| - 1], id, link);
      assert forall k :: 0 <= k < |links| - 1 ==> links[..|links| - 1][k] == links[k];
    }
  }

  lemma ReplacementNamed(assertions: seq<Assertion>, ids: set<Id>, rows: seq<Assertion>, a: Assertion, later: Id)
    requires Chained(assertions) && RowsOf(assertions, ids, rows) && OfEdges(assertions, ids, a)
    ensures ReplacedBy(rows, a.id) == Some(later) <==> ReplacedAs(assertions, a.id, later)
  {
    ReplacedByNames(rows, a.id);
    ReplacedLocally(assertions, ids, rows, a);
    if ReplacedBy(rows, a.id).Some? {
      var i :| 0 <= i < |rows| && rows[i].id == ReplacedBy(rows, a.id).value && rows[i].supersedes == Some(a.id);
      assert OfEdges(assertions, ids, rows[i]);
      var j :| 0 <= j < |assertions| && assertions[j] == rows[i];
      if k :| 0 <= k < |assertions| && assertions[k].id == later && assertions[k].supersedes == Some(a.id) {
        assert k == j;
      }
    }
  }

  lemma CitationsListed(g: Graph, ids: set<Id>, f: Fetched, a: Assertion, link: Link)
    requires Fetches(g, ids, f) && a in f.rows
    ensures link in EvidenceOf(f.links, a.id) <==> link in g.links && link.assertion == a.id
  {
    EvidenceOfExact(f.links, a.id, link);
    if k :| 0 <= k < |f.links| && f.links[k].link == link && link.assertion == a.id {
      assert f.links[k] in f.links && FetchedLink(g, f.rows, f.links[k]);
    }
    if link in g.links && link.assertion == a.id {
      var l := LinkRow(link, if link.evidence in g.evidence then Some(g.evidence[link.evidence]) else None);
      assert FetchedLink(g, f.rows, l) && l in f.links;
    }
  }

  lemma RecordDocumented(g: Graph, ids: set<Id>, f: Fetched, a: Assertion)
    requires Inv(g) && Fetches(g, ids, f) && a in f.rows
    ensures Documented(g, RecordOf(f, a))
  {
    assert OfEdges(g.assertions, ids, a);
    forall later ensures ReplacedBy(f.rows, a.id) == Some(later) <==> ReplacedAs(g.assertions, a.id, later) {
      ReplacementNamed(g.assertions, ids, f.rows, a, later);
    }
    forall link ensures link in EvidenceOf(f.links, a.id) <==> link in g.links && link.assertion == a.id {
      CitationsListed(g, ids, f, a, link);
    }
    TraceableExactly(g, ids, f, a);
  }

  lemma ListingAccurate(assertions: seq<Assertion>, ids: set<Id>, f: Fetched, e: Id, all: bool)
    requires Chained(assertions) && RowsOf(assertions, ids, f.rows) && e in ids
    ensures Accurate(assertions, e, Listing(f, |f.rows|, e, all), all)
  {
    var records := Listing(f, |f.rows|, e, all);
    ListingExact(f, |f.rows|, e, all);
    assert f.rows[..|f.rows|] == f.rows;
    forall a ensures Lists(records, a) <==> OfEdges(assertions, {e}, a) && (all || !Replaced(assertions, a.id)) {
      assert OfEdges(assertions, {e}, a) <==> a.edge == e && OfEdges(assertions, ids, a);
      if OfEdges(assertions, ids, a) { ReplacedLocally(assertions, ids, f.rows, a); }
    }
    forall k | 0 <= k < |records| ensures records[k].current == !Replaced(assertions, records[k].assertion.id) {
      assert records[k] in records && Lists(records, records[k].assertion);
      assert OfEdges(assertions, ids, records[k].assertion);
      ReplacedLocally(assertions, ids, f.rows, records[k].assertion);
    }
  }

  lemma AccurateKinds(g: Graph, e: Id, records: seq<Record>, all: bool, kind: AssertionType)
    requires Accurate(g.assertions, e, records, all)
    ensures kind in CurrentTypes(records) <==> HasCurrent(g, e, kind)
  {
    CurrentTypesExact(records, kind);
    if k :| 0 <= k < |records| && records[k].current && records[k].assertion.claim.kind == kind {
      assert Lists(records, records[k].assertion);
      var i :| 0 <= i < |g.assertions| && g.assertions[i] == records[k].assertion;
      assert HasCurrent(g, e, kind);
    }
    if HasCurrent(g, e, kind) {
      var i :| 0 <= i < |g.assertions| && g.assertions[i].edge == e && g.assertions[i].claim.kind == kind
               && !Replaced(g.assertions, g.assertions[i].id);
      assert OfEdges(g.assertions, {e}, g.assertions[i]);
      assert Lists(records, g.assertions[i]);
    }
  }

  lemma ListingDocumented(g: Graph, ids: set<Id>, f: Fetched, e: Id, all: bool)
    requires Inv(g) && Fetches(g, ids, f)
    ensures forall r :: r in Listing(f, |f.rows|, e, all) ==> Documented(g, r)
  {
    var records := Listing(f, |f.rows|, e, all);
    ListingExact(f, |f.rows|, e, all);
    assert f.rows[..|f.rows|] == f.rows;
    forall r | r in records ensures Documented(g, r) {
      var k :| 0 <= k < |records| && records[k] == r;
      assert Lists(records, r.assertion);
      RecordDocumented(g, ids, f, r.assertion);
    }
  }

  lemma RecordsWeigh(g: Graph, e: Id, records: seq<Record>, all: bool)
    requires Inv(g) && e in g.edges && Accurate(g.assertions, e, records, all)
    ensures records != [] && Weightiest(g, e, VerificationStateOf(CurrentTypes(records)))
  {
    forall kind ensures kind in CurrentTypes(records) <==> HasCurrent(g, e, kind) {
      AccurateKinds(g, e, records, all, kind);
    }
    var kind := EveryEdgeHasCurrent(g, e);
    assert kind in CurrentTypes(records);
    WeighsRight(g, e, CurrentTypes(records));
  }

  /** However it is asked for, the view of an edge is faithful and never empty, so the read drops no edge. */
  lemma ViewFaithful(g: Graph, ids: set<Id>, f: Fetched, e: Id, all: bool)
    requires Inv(g) && Fetches(g, ids, f) && e in ids
    ensures Listing(f, |f.rows|, e, all) != []
    ensures Faithful(g, ViewOf(g, f, e, all), all)
  {
    ListingAccurate(g.assertions, ids, f, e, all);
    ListingDocumented(g, ids, f, e, all);
    RecordsWeigh(g, e, Listing(f, |f.rows|, e, all), all);
    Assembled(g, f, e, all);
  }

  lemma Assembled(g: Graph, f: Fetched, e: Id, all: bool)
    requires e in g.edges && Accurate(g.assertions, e, Listing(f, |f.rows|, e, all), all)
    requires forall r :: r in Listing(f, |f.rows|, e, all) ==> Documented(g, r)
    requires Weightiest(g, e, VerificationStateOf(CurrentTypes(Listing(f, |f.rows|, e, all))))
    ensures Faithful(g, ViewOf(g, f, e, all), all)
  {
  }

  lemma WeighsRight(g: Graph, e: Id, types: seq<AssertionType>)
    requires types != [] && forall kind :: kind in types <==> HasCurrent(g, e, kind)
    ensures Weightiest(g, e, VerificationStateOf(types))
  {
    assert types[0] in types;
  }

  /** The default read and the full-history read give an edge the same state. */
  lemma ReadsAgree(g: Graph, default: EdgeView, full: EdgeView)
    requires Faithful(g, default, false) && Faithful(g, full, true) && default.id == full.id
    ensures default.verification == full.verification && default.live == full.live
    ensures forall a :: Lists(default.assertions, a) ==> Lists(full.assertions, a)
  {
    assert Weight(default.verification) <= Weight(full.verification) <= Weight(default.verification);
  }

  function Asked(edges: seq<Id>): set<Id> {
    set e | e in edges :: e
  }

  function ViewOf(g: Graph, f: Fetched, e: Id, all: bool): EdgeView
    requires e in g.edges
  {
    ToEdge(e, g.edges[e], Listing(f, |f.rows|, e, all))
  }

  lemma AllFaithful(g: Graph, edges: seq<Id>, f: Fetched, all: bool)
    requires Inv(g) && Fetches(g, Asked(edges), f)
    ensures forall k :: 0 <= k < |edges| ==> edges[k] in g.edges
    ensures forall k :: 0 <= k < |edges| ==>
      var view := ViewOf(g, f, edges[k], all); view.assertions != [] && Faithful(g, view, all)
  {
    forall k | 0 <= k < |edges|
      ensures edges[k] in g.edges
      ensures var view := ViewOf(g, f, edges[k], all); view.assertions != [] && Faithful(g, view, all)
    {
      assert edges[k] in edges;
      ViewFaithful(g, Asked(edges), f, edges[k], all);
    }
  }

  method ToEdges(g: Graph, edges: seq<Id>, ghost f: Fetched, ghost all: bool, byEdge: map<Id, seq<Record>>)
    returns (views: seq<EdgeView>)
    requires forall k :: 0 <= k < |edges| ==> edges[k] in g.edges && Listing(f, |f.rows|, edges[k], all) != []
    requires Grouped(f, |f.rows|, all, byEdge)
    ensures |views| == |edges| && forall k :: 0 <= k < |edges| ==> views[k] == ViewOf(g, f, edges[k], all)
  {
    views := [];
    for k := 0 to |edges|
      invariant |views| == k
      invariant forall j :: 0 <= j < k ==> views[j] == ViewOf(g, f, edges[j], all)
    {
      var e := edges[k];
      var view := ToEdge(e, g.edges[e], if e in byEdge then byEdge[e] else []);
      if view.assertions != [] { views := views + [view]; }
    }
  }

  lemma FetchedEdges(g: Graph, ids: set<Id>, f: Fetched)
    requires Fetches(g, ids, f)
    ensures forall j :: 0 <= j < |f.rows| ==> f.rows[j].edge in f.caseOf
  {
    forall j | 0 <= j < |f.rows| ensures f.rows[j].edge in f.caseOf { assert OfEdges(g.assertions, ids, f.rows[j]); }
  }

  // ---------- citations ----------

  lemma {:induction false} EdgeOfExact(rows: seq<Assertion>, j: nat)
    requires j < |rows| && forall i, k :: 0 <= i < k < |rows| ==> rows[i].id != rows[k].id
    ensures EdgeOf(rows, rows[j].id) == Some(rows[j].edge)
  {
    if j > 0 { EdgeOfExact(rows[1..], j - 1); }
  }

  lemma {:induction false} UsableLinksExact(f: Fetched, n: nat, id: Id)
    requires n <= |f.links|
    ensures UsableLinks(f, n, id) > 0 <==>
      exists k :: 0 <= k < n && f.links[k].link.assertion == id && Usable(f, f.links[k])
  {
    if n > 0 { UsableLinksExact(f, n - 1, id); }
  }

  lemma CitedEdge(g: Graph, ids: set<Id>, rows: seq<Assertion>, id: Id, caseId: Id)
    requires Chained(g.assertions) && RowsOf(g.assertions, ids, rows) && Known(rows, id) && AssertedIn(g, id, caseId)
    ensures var edge := EdgeOf(rows, id); edge.Some? && edge.value in ids && InCase(g, edge.value, caseId)
  {
    var j :| 0 <= j < |rows| && rows[j].id == id;
    assert OfEdges(g.assertions, ids, rows[j]);
    EdgeOfExact(rows, j);
    var i :| 0 <= i < |g.assertions| && g.assertions[i].id == id && InCase(g, g.assertions[i].edge, caseId);
  }

  /** Every stored citation is usable: its evidence is in the edge's own case and it says where to look. */
  lemma CitationUsable(g: Graph, ids: set<Id>, f: Fetched, l: LinkRow)
    requires Chained(g.assertions) && LinksSound(g) && Fetches(g, ids, f) && l in f.links
    ensures Usable(f, l)
  {
    assert FetchedLink(g, f.rows, l) && LinkSound(g, l.link);
    CitedEdge(g, ids, f.rows, l.link.assertion, g.evidence[l.link.evidence]);
  }

  /** An assertion claiming a document reads as traceable exactly when something was ever cited for it; one claiming
      none reads as neither. */
  lemma TraceableExactly(g: Graph, ids: set<Id>, f: Fetched, a: Assertion)
    requires Inv(g) && Fetches(g, ids, f) && a in f.rows
    ensures RecordOf(f, a).traceable ==
      if a.claim.kind != SourceBacked then None else Some(exists link :: link in g.links && link.assertion == a.id)
  {
    UsableLinksExact(f, |f.links|, a.id);
    if link :| link in g.links && link.assertion == a.id {
      var l := LinkRow(link, if link.evidence in g.evidence then Some(g.evidence[link.evidence]) else None);
      assert FetchedLink(g, f.rows, l);
      assert l in f.links;
      CitationUsable(g, ids, f, l);
    }
    if k :| 0 <= k < |f.links| && f.links[k].link.assertion == a.id {
      assert f.links[k] in f.links;
      assert FetchedLink(g, f.rows, f.links[k]);
    }
  }

  // ---------- the repository ----------

  class GraphRepository {
    var graph: Graph

    constructor (evidence: map<Id, Id>)
      ensures graph == Graph(map[], map[], [], [], evidence) && Inv(graph)
    {
      graph := Graph(map[], map[], [], [], evidence);
    }

    method CreateNode(actor: Actor, newId: Id, node: Node, fault: bool) returns (r: Result<Node, Refusal>)
      modifies this
      ensures r.Success? <==> !fault && Enabled(old(graph), Operation.CreateNode(actor, node.caseId, newId, node))
      ensures graph == if r.Success?
                       then Effect(old(graph), Operation.CreateNode(actor, node.caseId, newId, node))
                       else old(graph)
      ensures r.Failure? ==>
        || Some(r.error) == RefusalOf(old(graph), Operation.CreateNode(actor, node.caseId, newId, node))
        || (fault && r.error == Unreachable)
      ensures r.Success? ==> r.value == node && graph == old(graph).(nodes := old(graph).nodes[newId := node])
    {
      if Blank(node.subject) || Blank(node.text) { return Failure(Invalid); }
      if !MayWrite(actor) { return Failure(RefusalFor(actor)); }
      if SubjectTaken(graph, node) { return Failure(Conflict); }
      if fault || newId in graph.nodes { return Failure(Unreachable); }
      graph := graph.(nodes := graph.nodes[newId := node]);
      return Success(node);
    }

    /** The edge and its first assertion are written together, or neither is. */
    method CreateEdge(actor: Actor, newId: Id, edge: Edge, assertionId: Id, claim: Claim, fault: bool)
      returns (r: Result<Edge, Refusal>)
      requires edge.retired.None?
      modifies this
      ensures r.Success? <==>
        !fault && Enabled(old(graph), Operation.CreateEdge(actor, edge.caseId, newId, edge, assertionId, claim))
      ensures graph == if r.Success?
                       then Effect(old(graph),
                                   Operation.CreateEdge(actor, edge.caseId, newId, edge, assertionId, claim))
                       else old(graph)
      ensures r.Failure? ==>
        || Some(r.error) == RefusalOf(old(graph),
                                      Operation.CreateEdge(actor, edge.caseId, newId, edge, assertionId, claim))
        || (fault && r.error == Unreachable)
      ensures r.Success? ==>
        && r.value == edge
        && graph == old(graph).(edges := old(graph).edges[newId := edge],
                                assertions := old(graph).assertions + [Assertion(assertionId, newId, claim, None)])
    {
      if !ValidClaim(claim) || edge.from == edge.to { return Failure(Invalid); }
      if !MayWrite(actor) { return Failure(RefusalFor(actor)); }
      if !NodeInCase(graph, edge.from, edge.caseId) || !NodeInCase(graph, edge.to, edge.caseId) {
        return Failure(NotPersisted);
      }
      if newId in graph.edges { return Failure(Unreachable); }
      if AlreadyLive(graph, edge) { return Failure(Conflict); }
      var begun := graph;
      graph := graph.(edges := graph.edges[newId := edge]);
      if fault || Known(graph.assertions, assertionId) {
        graph := begun;
        return Failure(Unreachable);
      }
      graph := graph.(assertions := graph.assertions + [Assertion(assertionId, newId, claim, None)]);
      return Success(edge);
    }

    method CreateAssertion(actor: Actor, caseId: Id, edgeId: Id, newId: Id, claim: Claim, supersedes: Option<Id>,
                           fault: bool)
      returns (r: Result<Assertion, Refusal>)
      modifies this
      ensures r.Success? <==> !fault && Enabled(old(graph), Assert(actor, caseId, edgeId, newId, claim, supersedes))
      ensures graph == if r.Success?
                       then Effect(old(graph), Assert(actor, caseId, edgeId, newId, claim, supersedes))
                       else old(graph)
      ensures r.Failure? ==>
        || Some(r.error) == RefusalOf(old(graph), Assert(actor, caseId, edgeId, newId, claim, supersedes))
        || (fault && r.error == Unreachable)
      ensures r.Success? ==>
        && r.value == Assertion(newId, edgeId, claim, supersedes) && r.value in graph.assertions
        && graph == old(graph).(assertions := old(graph).assertions + [r.value])
    {
      if !ValidClaim(claim) { return Failure(Invalid); }
      if !MayWrite(actor) { return Failure(RefusalFor(actor)); }
      if !InCase(graph, edgeId, caseId) { return Failure(NotPersisted); }
      if supersedes.Some? && !OnEdge(graph.assertions, supersedes.value, edgeId) { return Failure(NotPersisted); }
      if fault || Known(graph.assertions, newId) { return Failure(Unreachable); }
      if supersedes.Some? && Replaced(graph.assertions, supersedes.value) { return Failure(Conflict); }
      var written := Assertion(newId, edgeId, claim, supersedes);
      graph := graph.(assertions := graph.assertions + [written]);
      assert graph.assertions[|graph.assertions| - 1] == written;
      return Success(written);
    }

    /** The edge is the replaced assertion's own; everything else is an assertion like any other. */
    method SupersedeAssertion(actor: Actor, caseId: Id, target: Id, newId: Id, claim: Claim, fault: bool)
      returns (r: Result<Assertion, Refusal>)
      modifies this
      ensures var edge := EdgeOf(old(graph).assertions, target);
        && (r.Success? <==>
              !fault && edge.Some?
              && Enabled(old(graph), Assert(actor, caseId, edge.value, newId, claim, Some(target))))
        && (graph
            == if r.Success?
               then Effect(old(graph), Assert(actor, caseId, edge.value, newId, claim, Some(target)))
               else old(graph))
        && (r.Failure? && edge.Some? ==>
              || Some(r.error) == RefusalOf(old(graph), Assert(actor, caseId, edge.value, newId, claim, Some(target)))
              || (fault && r.error == Unreachable))
      ensures !Known(old(graph).assertions, target) ==> r == Failure(NotPersisted)
      ensures r.Success? ==>
        && (exists i :: 0 <= i < |old(graph).assertions| && old(graph).assertions[i].id == target
              && old(graph).assertions[i].edge == r.value.edge)
        && r.value == Assertion(newId, r.value.edge, claim, Some(target))
        && graph == old(graph).(assertions := old(graph).assertions + [r.value])
    {
      EdgeOfStored(graph.assertions, target);
      var edge := EdgeOf(graph.assertions, target);
      if edge.None? { return Failure(NotPersisted); }
      r := CreateAssertion(actor, caseId, edge.value, newId, claim, Some(target), fault);
    }

    method LinkAssertionEvidence(actor: Actor, caseId: Id, link: Link, fault: bool) returns (r: Result<Link, Refusal>)
      modifies this
      ensures r.Success? <==> !fault && Enabled(old(graph), Cite(actor, caseId, link))
      ensures graph == if r.Success? then Effect(old(graph), Cite(actor, caseId, link)) else old(graph)
      ensures r.Failure? ==>
        Some(r.error) == RefusalOf(old(graph), Cite(actor, caseId, link)) || (fault && r.error == Unreachable)
      ensures r.Success? ==> r.value == link && graph == old(graph).(links := old(graph).links + [link])
    {
      if Blank(link.locator) { return Failure(Invalid); }
      if !MayWrite(actor) { return Failure(RefusalFor(actor)); }
      if !AssertedIn(graph, link.assertion, caseId) { return Failure(NotPersisted); }
      if link.evidence !in graph.evidence || graph.evidence[link.evidence] != caseId { return Failure(NotPersisted); }
      if Cited(graph, link.assertion, link.evidence) { return Failure(Conflict); }
      if fault { return Failure(Unreachable); }
      graph := graph.(links := graph.links + [link]);
      return Success(link);
    }

    method InvalidateEdge(actor: Actor, caseId: Id, edgeId: Id, reason: string, fault: bool)
      returns (r: Result<Edge, Refusal>)
      modifies this
      ensures r.Success? <==> !fault && Enabled(old(graph), Invalidate(actor, caseId, edgeId, reason))
      ensures graph == if r.Success? then Effect(old(graph), Invalidate(actor, caseId, edgeId, reason)) else old(graph)
      ensures r.Failure? ==>
        || Some(r.error) == RefusalOf(old(graph), Invalidate(actor, caseId, edgeId, reason))
        || (fault && r.error == Unreachable)
      ensures r.Success? ==>
        && r.value == old(graph).edges[edgeId].(retired := Some((actor.id, reason)))
        && graph == old(graph).(edges := old(graph).edges[edgeId := r.value])
    {
      if Blank(reason) { return Failure(Invalid); }
      if !MayWrite(actor) { return Failure(RefusalFor(actor)); }
      if fault { return Failure(Unreachable); }
      if !InCase(graph, edgeId, caseId) { return Failure(NotPersisted); }
      if graph.edges[edgeId].retired.Some? { return Failure(Conflict); }
      var closed := graph.edges[edgeId].(retired := Some((actor.id, reason)));
      graph := graph.(edges := graph.edges[edgeId := closed]);
      return Success(closed);
    }

    /** One faithful view for every edge of the case, or every live one; the filter on empty edges never removes any. */
    method ReadGraph(caseId: Id, retired: bool, all: bool, edges: seq<Id>, f: Fetched) returns (views: seq<EdgeView>)
      requires Inv(graph) && Fetches(graph, Asked(edges), f)
      requires forall e :: e in edges <==> InCase(graph, e, caseId) && (retired || graph.edges[e].retired.None?)
      ensures |views| == |edges|
      ensures forall k :: 0 <= k < |views| ==> views[k].id == edges[k] && Faithful(graph, views[k], all)
    {
      FetchedEdges(graph, Asked(edges), f);
      AllFaithful(graph, edges, f, all);
      var byEdge := AssertionsFor(f, all);
      views := ToEdges(graph, edges, f, all, byEdge);
    }
  }

  lemma {:induction false} EdgeOfStored(assertions: seq<Assertion>, id: Id)
    ensures EdgeOf(assertions, id).Some? <==> Known(assertions, id)
    ensures EdgeOf(assertions, id).Some? ==> OnEdge(assertions, id, EdgeOf(assertions, id).value)
  {
    if assertions != [] && assertions[0].id != id {
      EdgeOfStored(assertions[1..], id);
      assert forall i :: 1 <= i < |assertions| ==> assertions[1..][i - 1] == assertions[i];
    }
  }
}
