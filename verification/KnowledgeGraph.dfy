/** The legal knowledge graph (packages/graph/src/graph.ts): a store of typed, reasoned edges, the
    shortest relationship path between two nodes, and the account of why a node is there. */
module KnowledgeGraph {
  import opened Prelude
  import Digraph

  datatype NodeKind =
    | Person | Document | Evidence | LegalIssue | TimelineEvent | LawSource | Requirement | Task | Decision | Risk

  datatype EdgeKind = Supports | Contradicts | Evidences | Cites | Requires | DerivedFrom | Resolves | Raises

  datatype Asserter = Human(userId: string) | Agent(agentId: string)

  datatype Node = Node(id: string, kind: NodeKind, title: string)

  datatype Edge = Edge(id: string, from: string, to: string, kind: EdgeKind, basis: string,
                       assertedBy: Asserter, assertedAt: string, sourceId: Option<string>)

  datatype Path = Path(nodes: seq<Node>, edges: seq<Edge>)

  datatype ProvenanceStep = ProvenanceStep(edge: Edge, node: Node)

  datatype ProvenanceAnswer = ProvenanceAnswer(node: Node, steps: seq<ProvenanceStep>,
                                               fullyAttributable: bool, unattributableEdgeIds: seq<string>)

  datatype GraphError =
    | DuplicateNode | DuplicateEdge | UnknownNode(id: string) | NoBasis
    | CannotStartAt(kind: NodeKind) | CannotEndAt(kind: NodeKind)

  // ---------- the rule table ----------

  const MATERIAL: set<NodeKind> := {Evidence, Document, TimelineEvent}

  function MayStart(kind: EdgeKind): set<NodeKind> {
    match kind
    case Supports | Contradicts | Raises => MATERIAL
    case Evidences => {Document}
    case Cites => {LegalIssue, Decision, Requirement}
    case Requires => {Requirement}
    case DerivedFrom => {Document, Evidence, TimelineEvent, Decision, Risk, Task}
    case Resolves => {Task}
  }

  function MayEnd(kind: EdgeKind): set<NodeKind> {
    match kind
    case Supports | Contradicts => {LegalIssue}
    case Evidences => {Evidence, TimelineEvent}
    case Cites => {LawSource}
    case Requires => {Evidence}
    case DerivedFrom => {Document, Evidence, TimelineEvent, Decision, Requirement, Risk}
    case Resolves => {Requirement, Risk}
    case Raises => {Risk}
  }

  /** The same rules by what an edge joins: the kinds of edge there may be from one kind of node to another. */
  function Joining(from: NodeKind, to: NodeKind): set<EdgeKind> {
    match from
    case Document | Evidence | TimelineEvent =>
      var material := from.Document? && (to.Evidence? || to.TimelineEvent?);
      if to.LegalIssue? then {Supports, Contradicts}
      else if to.Risk? then {Raises, DerivedFrom}
      else if material then {Evidences, DerivedFrom}
      else if to in {Document, Evidence, TimelineEvent, Decision, Requirement} then {DerivedFrom}
      else {}
    case Decision =>
      if to.LawSource? then {Cites}
      else if to in {Document, Evidence, TimelineEvent, Decision, Requirement, Risk} then {DerivedFrom}
      else {}
    case Requirement => if to.LawSource? then {Cites} else if to.Evidence? then {Requires} else {}
    case LegalIssue => if to.LawSource? then {Cites} else {}
    case Task =>
      if to in {Requirement, Risk} then {Resolves, DerivedFrom}
      else if to in {Document, Evidence, TimelineEvent, Decision} then {DerivedFrom}
      else {}
    case Risk => if to in {Document, Evidence, TimelineEvent, Decision, Requirement, Risk} then {DerivedFrom} else {}
    case Person | LawSource => {}
  }

  lemma {:induction false} RulesAgree(kind: EdgeKind, from: NodeKind, to: NodeKind)
    ensures from in MayStart(kind) && to in MayEnd(kind) <==> kind in Joining(from, to)
  {
  }

  predicate Attributable(e: Edge) {
    e.assertedBy.Human? || !Missing(e.sourceId)
  }

  // ---------- what a stored edge list means ----------

  /** The edges at one end of a node, in insertion order. */
  function Leaving(es: seq<Edge>, n: string): seq<Edge> {
    if es == [] then [] else
    var e := es[|es| - 1];
    Leaving(es[..|es| - 1], n) + (if e.from == n then [e] else [])
  }

  function Entering(es: seq<Edge>, n: string): seq<Edge> {
    if es == [] then [] else
    var e := es[|es| - 1];
    Entering(es[..|es| - 1], n) + (if e.to == n then [e] else [])
  }

  lemma LeavingSnoc(es: seq<Edge>, e: Edge, n: string)
    ensures Leaving(es + [e], n) == Leaving(es, n) + (if e.from == n then [e] else [])
  {
    assert (es + [e])[..|es|] == es;
  }

  lemma EnteringSnoc(es: seq<Edge>, e: Edge, n: string)
    ensures Entering(es + [e], n) == Entering(es, n) + (if e.to == n then [e] else [])
  {
    assert (es + [e])[..|es|] == es;
  }

  lemma {:induction false} LeavingMember(es: seq<Edge>, n: string, e: Edge)
    ensures e in Leaving(es, n) <==> e in es && e.from == n
  {
    if es != [] {
      LeavingMember(es[..|es| - 1], n, e);
      assert es == es[..|es| - 1] + [es[|es| - 1]];
    }
  }

  lemma {:induction false} EnteringMember(es: seq<Edge>, n: string, e: Edge)
    ensures e in Entering(es, n) <==> e in es && e.to == n
  {
    if es != [] {
      EnteringMember(es[..|es| - 1], n, e);
      assert es == es[..|es| - 1] + [es[|es| - 1]];
    }
  }

  /** One edge is stored before the other. */
  ghost predicate Before(es: seq<Edge>, x: Edge, y: Edge) {
    exists i, j :: 0 <= i < j < |es| && es[i] == x && es[j] == y
  }

  ghost predicate InOrder(es: seq<Edge>, some: seq<Edge>) {
    forall i, j :: 0 <= i < j < |some| ==> Before(es, some[i], some[j])
  }

  lemma OrderSnoc(es: seq<Edge>, some: seq<Edge>, e: Edge)
    requires InOrder(es, some) && forall x :: x in some ==> x in es
    ensures InOrder(es + [e], some) && InOrder(es + [e], some + [e])
  {
    forall x, y | Before(es, x, y) ensures Before(es + [e], x, y) {
      var i, j :| 0 <= i < j < |es| && es[i] == x && es[j] == y;
      assert (es + [e])[i] == x && (es + [e])[j] == y;
    }
    forall x | x in some ensures Before(es + [e], x, e) {
      var i :| 0 <= i < |es| && es[i] == x;
      assert (es + [e])[i] == x && (es + [e])[|es|] == e;
    }
  }

  lemma {:induction false} LeavingOrder(es: seq<Edge>, n: string)
    ensures InOrder(es, Leaving(es, n))
  {
    if es != [] {
      var front := es[..|es| - 1];
      LeavingOrder(front, n);
      forall x | x in Leaving(front, n) ensures x in front { LeavingMember(front, n, x); }
      OrderSnoc(front, Leaving(front, n), es[|es| - 1]);
      assert es == front + [es[|es| - 1]];
    }
  }

  lemma {:induction false} EnteringOrder(es: seq<Edge>, n: string)
    ensures InOrder(es, Entering(es, n))
  {
    if es != [] {
      var front := es[..|es| - 1];
      EnteringOrder(front, n);
      forall x | x in Entering(front, n) ensures x in front { EnteringMember(front, n, x); }
      OrderSnoc(front, Entering(front, n), es[|es| - 1]);
      assert es == front + [es[|es| - 1]];
    }
  }

  predicate Admissible(nodes: map<string, Node>, e: Edge) {
    && e.from in nodes && e.to in nodes && !Blank(e.basis)
    && nodes[e.from].kind in MayStart(e.kind) && nodes[e.to].kind in MayEnd(e.kind)
  }

  ghost predicate WellFormed(nodes: map<string, Node>, es: seq<Edge>) {
    && (forall id :: id in nodes ==> nodes[id].id == id)
    && (forall e :: e in es ==> Admissible(nodes, e))
    && (forall i, j :: 0 <= i < j < |es| ==> es[i].id != es[j].id)
  }

  /** `p` chains stored edges head to tail from `a` to `b`. */
  ghost predicate IsPath(es: seq<Edge>, p: seq<Edge>, a: string, b: string) {
    && (forall i :: 0 <= i < |p| ==> p[i] in es)
    && (forall i :: 0 < i < |p| ==> p[i - 1].to == p[i].from)
    && (if p == [] then a == b else p[0].from == a && p[|p| - 1].to == b)
  }

  // ---------- breadth-first distances ----------

  /** Every edge out of `u` leads to a node already seen, at most one step further out. */
  ghost predicate Settled(es: seq<Edge>, dist: map<string, nat>, u: string)
    requires u in dist
  {
    forall e :: e in es && e.from == u ==> e.to in dist && dist[e.to] <= dist[u] + 1
  }

  /** `previous[v]` is the last edge of a path of length `dist[v]`. */
  ghost predicate LastEdge(es: seq<Edge>, dist: map<string, nat>, previous: map<string, Edge>, v: string)
    requires v in dist
  {
    && v in previous && previous[v] in es && previous[v].to == v
    && previous[v].from in dist && dist[v] == dist[previous[v].from] + 1
  }

  ghost predicate Predecessors(es: seq<Edge>, source: string, dist: map<string, nat>, previous: map<string, Edge>) {
    && source in dist && dist[source] == 0
    && (forall v {:trigger LastEdge(es, dist, previous, v)} ::
          v in dist && v != source ==> LastEdge(es, dist, previous, v))
  }

  /** The queue holds the seen nodes not yet settled, in order of distance, all within one step of `d`. */
  ghost predicate Frontier(dist: map<string, nat>, queue: seq<string>, d: nat) {
    && (forall i :: 0 <= i < |queue| ==> queue[i] in dist && d <= dist[queue[i]])
    && (forall i, j :: 0 <= i < j < |queue| ==> dist[queue[i]] <= dist[queue[j]])
    && (forall v :: v in dist ==> dist[v] <= d + 1)
  }

  /** The first `k` of these edges lead to something seen. */
  ghost predicate HeadsSeen(es: seq<Edge>, k: nat, seen: set<string>) {
    k <= |es| && forall i :: 0 <= i < k ==> es[i].to in seen
  }

  lemma HeadsStep(es: seq<Edge>, k: nat, seen: set<string>)
    requires k < |es| && HeadsSeen(es, k, seen)
    ensures HeadsSeen(es, k + 1, seen + {es[k].to})
    ensures es[k].to in seen ==> HeadsSeen(es, k + 1, seen)
  {
  }

  /** The state of the search while the nodes in `open` are being expanded. */
  ghost predicate Search(es: seq<Edge>, source: string, dist: map<string, nat>, previous: map<string, Edge>,
                         queue: seq<string>, d: nat, open: set<string>) {
    && Predecessors(es, source, dist, previous)
    && Frontier(dist, queue, d)
    && (forall u {:trigger Settled(es, dist, u)} :: u in dist ==> u in queue || u in open || Settled(es, dist, u))
  }

  lemma StartSearch(es: seq<Edge>, source: string)
    ensures Search(es, source, map[source := 0], map[], [source], 0, {})
  {
  }

  lemma PopNode(es: seq<Edge>, source: string, dist: map<string, nat>, previous: map<string, Edge>,
                queue: seq<string>, d: nat)
    requires queue != [] && Search(es, source, dist, previous, queue, d, {})
    ensures queue[0] in dist && Search(es, source, dist, previous, queue[1..], dist[queue[0]], {queue[0]})
  {
    assert queue == [queue[0]] + queue[1..];
  }

  lemma DiscoverPredecessor(es: seq<Edge>, source: string, dist: map<string, nat>, previous: map<string, Edge>, e: Edge)
    requires Predecessors(es, source, dist, previous) && e in es && e.from in dist && e.to !in dist
    ensures Predecessors(es, source, dist[e.to := dist[e.from] + 1], previous[e.to := e])
  {
    var dist', previous' := dist[e.to := dist[e.from] + 1], previous[e.to := e];
    forall v | v in dist' && v != source
      ensures LastEdge(es, dist', previous', v)
    {
      assert v != e.to ==> LastEdge(es, dist, previous, v);
    }
  }

  lemma DiscoverFrontier(dist: map<string, nat>, queue: seq<string>, d: nat, v: string)
    requires Frontier(dist, queue, d) && v !in dist
    ensures Frontier(dist[v := d + 1], queue + [v], d)
  {
  }

  lemma DiscoverNode(es: seq<Edge>, source: string, dist: map<string, nat>, previous: map<string, Edge>,
                     queue: seq<string>,
                     d: nat, current: string, e: Edge)
    requires Search(es, source, dist, previous, queue, d, {current})
    requires current in dist && dist[current] == d && e in es && e.from == current && e.to !in dist
    ensures Search(es, source, dist[e.to := d + 1], previous[e.to := e], queue + [e.to], d, {current})
  {
    DiscoverPredecessor(es, source, dist, previous, e);
    DiscoverFrontier(dist, queue, d, e.to);
    var dist', queue' := dist[e.to := d + 1], queue + [e.to];
    forall u | u in dist'
      ensures u in queue' || u == current || Settled(es, dist', u)
    {
      if u == e.to {
        assert queue'[|queue|] == u;
      } else if u !in queue && u != current {
        assert Settled(es, dist, u);
      }
    }
  }

  lemma CloseNode(es: seq<Edge>, source: string, dist: map<string, nat>, previous: map<string, Edge>,
                  queue: seq<string>,
                  d: nat, current: string)
    requires Search(es, source, dist, previous, queue, d, {current})
    requires current in dist && dist[current] == d
    requires HeadsSeen(Leaving(es, current), |Leaving(es, current)|, dist.Keys)
    ensures Search(es, source, dist, previous, queue, d, {})
  {
    forall e | e in es && e.from == current
      ensures e.to in dist && dist[e.to] <= d + 1
    {
      LeavingMember(es, current, e);
    }
    assert Settled(es, dist, current);
  }

  /** Within the settled radius, what a path reaches has been seen no later than the path's length. */
  lemma {:induction false} WithinRadius(es: seq<Edge>, source: string, dist: map<string, nat>, radius: nat,
                                        p: seq<Edge>, v: string)
    requires source in dist && dist[source] == 0
    requires forall u {:trigger Settled(es, dist, u)} :: u in dist && dist[u] < radius ==> Settled(es, dist, u)
    requires IsPath(es, p, source, v) && |p| <= radius
    ensures v in dist && dist[v] <= |p|
  {
    if p != [] {
      var last := p[|p| - 1];
      var front := p[..|p| - 1];
      assert IsPath(es, front, source, last.from) by {
        forall i | 0 <= i < |front| ensures front[i] in es { assert p[i] in es; }
      }
      WithinRadius(es, source, dist, radius, front, last.from);
      assert Settled(es, dist, last.from) && last in es;
    }
  }

  lemma PrependEdge(es: seq<Edge>, e: Edge, p: seq<Edge>, b: string)
    requires e in es && IsPath(es, p, e.to, b)
    ensures IsPath(es, [e] + p, e.from, b)
  {
  }

  /** The nodes of a path are the source and then each edge's head. */
  ghost predicate NodesOf(nodes: map<string, Node>, path: Path, source: string) {
    && |path.nodes| == |path.edges| + 1
    && source in nodes && path.nodes[0] == nodes[source]
    && forall i :: 0 <= i < |path.edges| ==> path.edges[i].to in nodes && path.nodes[i + 1] == nodes[path.edges[i].to]
  }

  lemma HeadsKnown(nodes: map<string, Node>, es: seq<Edge>, p: seq<Edge>, a: string, b: string)
    requires WellFormed(nodes, es) && IsPath(es, p, a, b)
    ensures forall i :: 0 <= i < |p| ==> p[i].to in nodes
  {
    forall i | 0 <= i < |p| ensures p[i].to in nodes {
      assert p[i] in es;
      assert Admissible(nodes, p[i]);
    }
  }

  function HeadNodes(nodes: map<string, Node>, p: seq<Edge>): seq<Node>
    requires forall i :: 0 <= i < |p| ==> p[i].to in nodes
  {
    seq(|p|, i requires 0 <= i < |p| => nodes[p[i].to])
  }

  /** When nothing is left to expand, an unseen node is not reached at all. */
  lemma NoPath(es: seq<Edge>, source: string, dist: map<string, nat>, previous: map<string, Edge>, d: nat,
               target: string)
    requires Search(es, source, dist, previous, [], d, {}) && target !in dist
    ensures forall p :: !IsPath(es, p, source, target)
  {
    forall p
      ensures !IsPath(es, p, source, target)
    {
      if IsPath(es, p, source, target) {
        WithinRadius(es, source, dist, |p|, p, target);
      }
    }
  }

  /** When the target is first met while expanding a node at distance `d`, no path is shorter than `d + 1`. */
  lemma NoShorter(es: seq<Edge>, source: string, dist: map<string, nat>, queue: seq<string>, previous: map<string,
                  Edge>,
                  d: nat, current: string, target: string)
    requires Search(es, source, dist, previous, queue, d, {current}) && current in dist && dist[current] == d
    requires target !in dist
    ensures forall p :: IsPath(es, p, source, target) ==> d + 1 <= |p|
  {
    forall p | IsPath(es, p, source, target)
      ensures d + 1 <= |p|
    {
      if |p| <= d {
        forall u | u in dist && dist[u] < d
          ensures Settled(es, dist, u)
        {
        }
        WithinRadius(es, source, dist, d, p, target);
      }
    }
  }

  // ---------- provenance ----------

  /** The relation `whyIncluded` walks: along an edge, or back along a `requires` edge. */
  function Explains(es: set<Edge>): set<(string, string)> {
    (set e | e in es :: (e.from, e.to)) + (set e | e in es && e.kind.Requires? :: (e.to, e.from))
  }

  function Edges(es: seq<Edge>): set<Edge> {
    set e | e in es
  }

  function StepEdges(steps: seq<ProvenanceStep>): set<Edge> {
    set s | s in steps :: s.edge
  }

  function StepNodes(steps: seq<ProvenanceStep>): set<string> {
    set s | s in steps :: s.node.id
  }

  /** The edge of step `k` joins its node to the start or to the node of an earlier step. */
  ghost predicate HasParent(steps: seq<ProvenanceStep>, start: string, k: nat)
    requires k < |steps|
  {
    exists parent ::
      parent in {start} + StepNodes(steps[..k]) && (parent, steps[k].node.id) in Explains({steps[k].edge})
  }

  ghost predicate Grows(steps: seq<ProvenanceStep>, start: string) {
    forall k :: 0 <= k < |steps| ==> HasParent(steps, start, k)
  }

  ghost predicate ListedOnce(steps: seq<ProvenanceStep>, start: string) {
    && (forall i :: 0 <= i < |steps| ==> steps[i].node.id != start)
    && (forall i, j :: 0 <= i < j < |steps| ==> steps[i].node.id != steps[j].node.id)
  }

  lemma {:induction false} GrowsReaches(steps: seq<ProvenanceStep>, start: string, k: nat)
    requires Grows(steps, start) && k < |steps|
    ensures Digraph.Reaches(Explains(StepEdges(steps)), start, steps[k].node.id)
    decreases k
  {
    var g := Explains(StepEdges(steps));
    var s := steps[k];
    assert HasParent(steps, start, k);
    var parent :| parent in {start} + StepNodes(steps[..k]) && (parent, s.node.id) in Explains({s.edge});
    assert s.edge in StepEdges(steps);
    assert (parent, s.node.id) in g;
    Digraph.EdgeReaches(g, parent, s.node.id);
    if parent != start {
      var j :| 0 <= j < k && steps[j].node.id == parent;
      GrowsReaches(steps, start, j);
      Digraph.ReachesTrans(g, start, parent, s.node.id);
    }
  }

  lemma {:induction false} ClosedHolds(g: set<(string, string)>, seen: set<string>, p: seq<string>)
    requires forall e :: e in g && e.0 in seen ==> e.1 in seen
    requires Digraph.IsWalk(g, p) && p != [] && p[0] in seen
    ensures p[|p| - 1] in seen
  {
    if |p| > 1 {
      assert (p[0], p[1]) in g;
      assert (p[0], p[1]).1 in seen;
      ClosedHolds(g, seen, p[1..]);
    }
  }

  /** A seen set that grew from the start and is closed under the relation is exactly what the relation reaches. */
  lemma ClosureExact(es: seq<Edge>, start: string, steps: seq<ProvenanceStep>)
    requires Grows(steps, start) && StepEdges(steps) <= Edges(es)
    requires forall e :: e in Explains(Edges(es)) && e.0 in {start} + StepNodes(steps) ==>
      e.1 in {start} + StepNodes(steps)
    ensures StepNodes(steps) + {start} == Digraph.Below(Explains(Edges(es)), start) + {start}
  {
    var g := Explains(Edges(es));
    var seen := {start} + StepNodes(steps);
    forall x | x in StepNodes(steps)
      ensures x in Digraph.Below(g, start)
    {
      var k :| 0 <= k < |steps| && steps[k].node.id == x;
      GrowsReaches(steps, start, k);
      assert Explains(StepEdges(steps)) <= g;
      Digraph.ReachesMonotone(Explains(StepEdges(steps)), g, start, x);
      Digraph.BelowIff(g, start, x);
    }
    forall x | x in Digraph.Below(g, start)
      ensures x in seen
    {
      Digraph.BelowIff(g, start, x);
      var p :| Digraph.Joins(g, p, start, x);
      ClosedHolds(g, seen, p);
    }
  }

  /** The first of these edges that leads to `x`. */
  function FirstTo(out: seq<Edge>, x: string): Option<Edge> {
    if out == [] then None else if out[0].to == x then Some(out[0]) else FirstTo(out[1..], x)
  }

  lemma {:induction false} FirstToExact(out: seq<Edge>, i: nat)
    requires i < |out| && forall j :: 0 <= j < i ==> out[j].to != out[i].to
    ensures FirstTo(out, out[i].to) == Some(out[i])
  {
    if i > 0 {
      assert forall j :: 0 <= j < i - 1 ==> out[1..][j] == out[j + 1];
      FirstToExact(out[1..], i - 1);
    }
  }

  lemma {:induction false} FirstToFound(out: seq<Edge>, x: string)
    ensures FirstTo(out, x).Some? ==> FirstTo(out, x).value in out && FirstTo(out, x).value.to == x
    ensures FirstTo(out, x).None? ==> forall i :: 0 <= i < |out| ==> out[i].to != x
  {
    if out != [] && out[0].to != x {
      FirstToFound(out[1..], x);
      assert out == [out[0]] + out[1..];
    }
  }

  /** A node the start points at is explained by the first edge that does so. */
  ghost predicate Direct(es: seq<Edge>, start: string, steps: seq<ProvenanceStep>) {
    forall s :: s in steps && FirstTo(Leaving(es, start), s.node.id).Some? ==>
      s.edge == FirstTo(Leaving(es, start), s.node.id).value
  }

  /** Everything the start points at has been seen, or the walk is still at the start. */
  ghost predicate StartFirst(es: seq<Edge>, start: string, seen: set<string>) {
    HeadsSeen(Leaving(es, start), |Leaving(es, start)|, seen)
  }

  lemma DirectNext(es: seq<Edge>, start: string, steps: seq<ProvenanceStep>, seen: set<string>, s: ProvenanceStep,
                   i: nat)
    requires Direct(es, start, steps) && s.node.id !in seen
    requires StartFirst(es, start, seen)
             || (i < |Leaving(es, start)| && Leaving(es, start)[i] == s.edge && s.edge.to == s.node.id
                 && HeadsSeen(Leaving(es, start), i, seen))
    ensures Direct(es, start, steps + [s])
  {
    var out := Leaving(es, start);
    FirstToFound(out, s.node.id);
    if StartFirst(es, start, seen) {
      assert FirstTo(out, s.node.id).None?;
    } else {
      FirstToExact(out, i);
    }
  }

  /** The account kept while walking: what is seen is the start and the nodes listed so far. */
  ghost predicate Tracked(nodes: map<string, Node>, es: seq<Edge>, start: string, steps: seq<ProvenanceStep>,
                          unattributable: seq<string>, seen: set<string>) {
    && seen == {start} + StepNodes(steps) && seen <= nodes.Keys
    && ListedOnce(steps, start) && Grows(steps, start) && StepEdges(steps) <= Edges(es)
    && (forall s :: s in steps ==> s.node.id in nodes && s.node == nodes[s.node.id])
    && Flagged(steps, unattributable)
  }

  /** `ids` are the edge ids of the steps nobody can be held to, in order. */
  ghost predicate Flagged(steps: seq<ProvenanceStep>, ids: seq<string>) {
    ids == UnattributableIds(steps)
  }

  function UnattributableIds(steps: seq<ProvenanceStep>): seq<string> {
    if steps == [] then [] else
    var s := steps[|steps| - 1];
    UnattributableIds(steps[..|steps| - 1]) + (if Attributable(s.edge) then [] else [s.edge.id])
  }

  lemma {:induction false} UnattributableMember(steps: seq<ProvenanceStep>)
    ensures UnattributableIds(steps) == [] <==> forall s :: s in steps ==> Attributable(s.edge)
  {
    if steps != [] {
      var n := |steps| - 1;
      UnattributableMember(steps[..n]);
      assert steps == steps[..n] + [steps[n]];
    }
  }

  /** Both kinds of explaining edge at `u` lead to something seen. */
  ghost predicate Covered(es: seq<Edge>, seen: set<string>, u: string) {
    forall e :: e in es ==> (e.from == u ==> e.to in seen) && (e.kind.Requires? && e.to == u ==> e.from in seen)
  }

  lemma GrowsSnoc(steps: seq<ProvenanceStep>, start: string, s: ProvenanceStep, parent: string)
    requires Grows(steps, start) && parent in {start} + StepNodes(steps) && (parent, s.node.id) in Explains({s.edge})
    ensures Grows(steps + [s], start)
  {
    var more := steps + [s];
    forall k | 0 <= k < |more|
      ensures HasParent(more, start, k)
    {
      if k < |steps| {
        assert HasParent(steps, start, k);
        assert more[..k] == steps[..k];
      } else {
        assert more[..k] == steps;
        assert parent in {start} + StepNodes(more[..k]);
      }
    }
  }

  /** Recording one newly found node keeps the account consistent. */
  lemma TrackNode(nodes: map<string, Node>, es: seq<Edge>, start: string, steps: seq<ProvenanceStep>,
                  unattributable: seq<string>,
                  seen: set<string>, e: Edge, parent: string, found: string)
    requires Tracked(nodes, es, start, steps, unattributable, seen)
    requires parent in seen && found !in seen && found in nodes && nodes[found].id == found
    requires e in es && (parent, found) in Explains({e})
    ensures Tracked(nodes, es, start, steps + [ProvenanceStep(e, nodes[found])],
                    unattributable + (if Attributable(e) then [] else [e.id]), seen + {found})
  {
    var s := ProvenanceStep(e, nodes[found]);
    var more := steps + [s];
    assert more[..|more| - 1] == steps;
    assert more[|steps|] == s;
    assert forall x :: x in more <==> x in steps || x == s;
    assert StepNodes(more) == StepNodes(steps) + {found};
    assert forall x :: x in steps ==> x.node.id in StepNodes(steps);
    GrowsSnoc(steps, start, s, parent);
  }

  /** When every seen node is covered the account is complete. */
  lemma Exhausted(nodes: map<string, Node>, es: seq<Edge>, start: string, steps: seq<ProvenanceStep>,
                  unattributable: seq<string>, seen: set<string>)
    requires Tracked(nodes, es, start, steps, unattributable, seen)
    requires forall u {:trigger Covered(es, seen, u)} :: u in seen ==> Covered(es, seen, u)
    ensures StepNodes(steps) == Digraph.Below(Explains(Edges(es)), start) - {start}
  {
    forall x | x in Explains(Edges(es)) && x.0 in seen
      ensures x.1 in seen
    {
      assert Covered(es, seen, x.0);
    }
    ClosureExact(es, start, steps);
    assert start !in StepNodes(steps);
  }

  /** The `requires` edges among the first `k` come from something seen. */
  ghost predicate TailsSeen(es: seq<Edge>, k: nat, seen: set<string>) {
    k <= |es| && forall i :: 0 <= i < k && es[i].kind.Requires? ==> es[i].from in seen
  }

  lemma TailsStep(es: seq<Edge>, k: nat, seen: set<string>)
    requires k < |es| && TailsSeen(es, k, seen)
    ensures TailsSeen(es, k + 1, seen + {es[k].from})
    ensures es[k].from in seen || !es[k].kind.Requires? ==> TailsSeen(es, k + 1, seen)
  {
  }

  /** Nodes waiting are seen; every other seen node outside `open` is covered. */
  ghost predicate Walking(es: seq<Edge>, seen: set<string>, queue: seq<string>, open: set<string>) {
    && (forall q :: q in queue ==> q in seen)
    && (forall u {:trigger Covered(es, seen, u)} :: u in seen ==> u in queue || u in open || Covered(es, seen, u))
  }

  lemma PopWalk(es: seq<Edge>, seen: set<string>, queue: seq<string>)
    requires queue != [] && Walking(es, seen, queue, {})
    ensures queue[0] in seen && Walking(es, seen, queue[1..], {queue[0]})
  {
    assert queue == [queue[0]] + queue[1..];
  }

  lemma PushWalk(es: seq<Edge>, seen: set<string>, queue: seq<string>, current: string, found: string)
    requires Walking(es, seen, queue, {current})
    ensures Walking(es, seen + {found}, queue + [found], {current})
  {
    forall u | u in seen + {found}
      ensures u in queue + [found] || u == current || Covered(es, seen + {found}, u)
    {
      if u in seen && u !in queue && u != current {
        assert Covered(es, seen, u);
      }
    }
  }

  lemma CloseWalk(es: seq<Edge>, seen: set<string>, queue: seq<string>, current: string)
    requires Walking(es, seen, queue, {current})
    requires HeadsSeen(Leaving(es, current), |Leaving(es, current)|, seen)
    requires TailsSeen(Entering(es, current), |Entering(es, current)|, seen)
    ensures Walking(es, seen, queue, {})
  {
    forall e | e in es
      ensures e.from == current ==> e.to in seen
      ensures e.kind.Requires? && e.to == current ==> e.from in seen
    {
      LeavingMember(es, current, e);
      EnteringMember(es, current, e);
    }
    assert Covered(es, seen, current);
  }

  /** What `whyIncluded` promises about its answer. */
  ghost predicate Accounts(nodes: map<string, Node>, es: seq<Edge>, start: string, a: ProvenanceAnswer) {
    && start in nodes && a.node == nodes[start]
    && ListedOnce(a.steps, start)
    && StepNodes(a.steps) == Digraph.Below(Explains(Edges(es)), start) - {start}
    && Direct(es, start, a.steps)
    && Grows(a.steps, start) && StepEdges(a.steps) <= Edges(es)
    && (forall s :: s in a.steps ==> s.node.id in nodes && s.node == nodes[s.node.id])
    && a.unattributableEdgeIds == UnattributableIds(a.steps)
    && (a.fullyAttributable <==> forall s :: s in a.steps ==> Attributable(s.edge))
  }

  lemma StartWalk(nodes: map<string, Node>, es: seq<Edge>, start: string)
    requires start in nodes
    ensures Tracked(nodes, es, start, [], [], {start}) && Walking(es, {start}, [start], {})
  {
  }

  lemma Concludes(nodes: map<string, Node>, es: seq<Edge>, start: string, steps: seq<ProvenanceStep>,
                  ids: seq<string>, seen: set<string>)
    requires start in nodes && Tracked(nodes, es, start, steps, ids, seen) && Walking(es, seen, [], {})
    requires Direct(es, start, steps)
    ensures Accounts(nodes, es, start, ProvenanceAnswer(nodes[start], steps, ids == [], ids))
  {
    Exhausted(nodes, es, start, steps, ids, seen);
    UnattributableMember(steps);
  }

  // ---------- the answer in plain terms ----------

  /** A person asserted it, or it names a source. */
  predicate Vouched(e: Edge) {
    match e.assertedBy
    case Human(_) => true
    case Agent(_) => e.sourceId.Some? && exists i :: 0 <= i < |e.sourceId.value| && !IsSpace(e.sourceId.value[i])
  }

  /** The edge leads from `x` to `y`, backwards if it is a `requires` edge. */
  predicate LeadsTo(e: Edge, x: string, y: string) {
    (e.from == x && e.to == y) || (e.kind == Requires && e.to == x && e.from == y)
  }

  /** `q[i]` leads from `p[i]` to `p[i + 1]`. */
  ghost predicate Chain(es: set<Edge>, p: seq<string>, q: seq<Edge>) {
    |p| == |q| + 1 && forall i :: 0 <= i < |q| ==> q[i] in es && LeadsTo(q[i], p[i], p[i + 1])
  }

  /** Some chain of at least one of these edges joins the two. */
  ghost predicate Chained(es: set<Edge>, a: string, b: string) {
    exists p, q :: Chain(es, p, q) && q != [] && p[0] == a && p[|q|] == b
  }

  lemma {:induction false} ChainOfWalk(es: set<Edge>, p: seq<string>) returns (q: seq<Edge>)
    requires p != [] && Digraph.IsWalk(Explains(es), p)
    ensures Chain(es, p, q)
  {
    if |p| == 1 {
      q := [];
    } else {
      var n := |p| - 1;
      q := ChainOfWalk(es, p[..n]);
      assert (p[n - 1], p[n]) in Explains(es);
      var e :| e in es && LeadsTo(e, p[n - 1], p[n]);
      q := q + [e];
    }
  }

  lemma ChainedExactly(es: set<Edge>, a: string, b: string)
    ensures Chained(es, a, b) <==> Digraph.Reaches(Explains(es), a, b)
  {
    if Digraph.Reaches(Explains(es), a, b) {
      var p :| Digraph.Joins(Explains(es), p, a, b);
      var q := ChainOfWalk(es, p);
    }
    if Chained(es, a, b) {
      var p, q :| Chain(es, p, q) && q != [] && p[0] == a && p[|q|] == b;
      forall i | 0 < i < |p| ensures (p[i - 1], p[i]) in Explains(es) { assert q[i - 1] in es; }
      assert Digraph.Joins(Explains(es), p, a, b);
    }
  }

  lemma {:induction false} UnvouchedIds(steps: seq<ProvenanceStep>, id: string)
    ensures id in UnattributableIds(steps) <==> exists s :: s in steps && s.edge.id == id && !Vouched(s.edge)
  {
    if steps != [] {
      var n := |steps| - 1;
      UnvouchedIds(steps[..n], id);
      assert steps == steps[..n] + [steps[n]];
      assert Attributable(steps[n].edge) <==> Vouched(steps[n].edge);
    }
  }

  /** `es[k]` is the first edge stored from the one node to the other. */
  ghost predicate FirstAt(es: seq<Edge>, start: string, x: string, k: int) {
    && 0 <= k < |es| && es[k].from == start && es[k].to == x
    && forall j :: 0 <= j < k ==> !(es[j].from == start && es[j].to == x)
  }

  ghost predicate FirstStored(es: seq<Edge>, start: string, x: string, e: Edge) {
    exists k :: FirstAt(es, start, x, k) && es[k] == e
  }

  lemma {:induction false} FirstLeaving(es: seq<Edge>, start: string, x: string)
    ensures FirstTo(Leaving(es, start), x).None? ==> forall e :: e in es && e.from == start ==> e.to != x
    ensures FirstTo(Leaving(es, start), x).Some? ==> FirstStored(es, start, x, FirstTo(Leaving(es, start), x).value)
  {
    if es != [] {
      var n := |es| - 1;
      var front, out := es[..n], Leaving(es[..n], start);
      FirstLeaving(front, start, x);
      FirstToSnoc(out, es[n], x);
      assert Leaving(es, start) == if es[n].from == start then out + [es[n]] else out;
      assert es == front + [es[n]];
      if FirstTo(out, x).Some? {
        var k :| FirstAt(front, start, x, k) && front[k] == FirstTo(out, x).value;
        assert FirstAt(es, start, x, k);
      } else if es[n].from == start && es[n].to == x {
        forall j | 0 <= j < n ensures !(es[j].from == start && es[j].to == x) { assert es[j] in front; }
        assert FirstAt(es, start, x, n);
      }
    }
  }

  lemma {:induction false} FirstToSnoc(out: seq<Edge>, e: Edge, x: string)
    ensures FirstTo(out + [e], x) ==
            if FirstTo(out, x).Some? then FirstTo(out, x) else if e.to == x then Some(e) else None
  {
    if out != [] {
      assert (out + [e])[1..] == out[1..] + [e];
      FirstToSnoc(out[1..], e, x);
    }
  }

  /** What the answer says, in terms of the stored edges alone: which nodes are listed, which edge stands beside a node
      the start points at, what makes the answer fully attributable, and which edges it names. */
  lemma AccountsPlainly(nodes: map<string, Node>, es: seq<Edge>, start: string, a: ProvenanceAnswer)
    requires Accounts(nodes, es, start, a)
    ensures forall x :: x in StepNodes(a.steps) <==> x != start && Chained(Edges(es), start, x)
    ensures forall s, e :: s in a.steps && e in es && e.from == start && e.to == s.node.id ==>
      FirstStored(es, start, s.node.id, s.edge)
    ensures a.fullyAttributable <==> forall s :: s in a.steps ==> Vouched(s.edge)
    ensures forall id :: id in a.unattributableEdgeIds <==>
      exists s :: s in a.steps && s.edge.id == id && !Vouched(s.edge)
  {
    forall x ensures x in StepNodes(a.steps) <==> x != start && Chained(Edges(es), start, x) {
      ChainedExactly(Edges(es), start, x);
      Digraph.BelowIff(Explains(Edges(es)), start, x);
    }
    forall s, e | s in a.steps && e in es && e.from == start && e.to == s.node.id
      ensures FirstStored(es, start, s.node.id, s.edge)
    {
      FirstLeaving(es, start, s.node.id);
    }
    assert forall s :: s in a.steps ==> (Attributable(s.edge) <==> Vouched(s.edge));
    forall id ensures id in a.unattributableEdgeIds <==>
        exists s :: s in a.steps && s.edge.id == id && !Vouched(s.edge) {
      UnvouchedIds(a.steps, id);
    }
  }

  /** In a fully attributable answer every listed node is joined to the start by edges each of which a person
      asserted or a source backs. */
  lemma AttributableChain(nodes: map<string, Node>, es: seq<Edge>, start: string, a: ProvenanceAnswer, k: nat)
    requires Accounts(nodes, es, start, a) && a.fullyAttributable && k < |a.steps|
    ensures Chained((set e | e in es && Vouched(e)), start, a.steps[k].node.id)
  {
    AccountsPlainly(nodes, es, start, a);
    GrowsReaches(a.steps, start, k);
    var all := set e | e in es && Vouched(e);
    assert StepEdges(a.steps) <= all;
    Digraph.ReachesMonotone(Explains(StepEdges(a.steps)), Explains(all), start, a.steps[k].node.id);
    ChainedExactly(all, start, a.steps[k].node.id);
  }

  /** So an answer that is not fully attributable need not mean that somebody has to be taken on trust: where the first
      edge from the start to a node is an agent's without a source, a later one that is not goes unused. */
  lemma OverlookedEdge(nodes: map<string, Node>, es: seq<Edge>, start: string, a: ProvenanceAnswer, k: nat, later: Edge)
    requires Accounts(nodes, es, start, a) && k < |es| && later in es && later.from == start
    requires later.to != start && FirstAt(es, start, later.to, k)
    requires !Vouched(es[k]) && Vouched(later)
    ensures !a.fullyAttributable && es[k].id in a.unattributableEdgeIds
    ensures Chained((set e | e in es && Vouched(e)), start, later.to)
  {
    AccountsPlainly(nodes, es, start, a);
    var held := set e | e in es && Vouched(e);
    assert Chain(held, [start, later.to], [later]);
    assert Chain(Edges(es), [start, later.to], [later]);
    assert later.to in StepNodes(a.steps);
    var s :| s in a.steps && s.node.id == later.to;
    assert FirstStored(es, start, s.node.id, s.edge);
    assert s.edge == es[k];
  }

  // ---------- the rule table admits a rank ----------

  function Rank(kind: NodeKind): nat {
    match kind
    case Task | Decision | Person => 0
    case Document | Requirement => 1
    case Evidence | TimelineEvent => 2
    case LegalIssue | Risk => 3
    case LawSource => 4
  }

  lemma {:induction false} PathClimbs(nodes: map<string, Node>, es: seq<Edge>, p: seq<Edge>, a: string, b: string)
    requires WellFormed(nodes, es) && IsPath(es, p, a, b) && p != []
    requires forall i :: 0 <= i < |p| ==> !p[i].kind.DerivedFrom?
    ensures a in nodes && b in nodes && Rank(nodes[a].kind) < Rank(nodes[b].kind)
  {
    assert p[0] in es && Admissible(nodes, p[0]);
    if |p| > 1 {
      assert IsPath(es, p[1..], p[0].to, b) by {
        forall i | 0 <= i < |p[1..]| ensures p[1..][i] in es { assert p[i + 1] in es; }
      }
      PathClimbs(nodes, es, p[1..], p[0].to, b);
    }
  }

  /** Every directed cycle passes through a `derived_from` edge. */
  lemma CycleDerives(nodes: map<string, Node>, es: seq<Edge>, p: seq<Edge>, a: string)
    requires WellFormed(nodes, es) && IsPath(es, p, a, a) && p != []
    ensures exists i :: 0 <= i < |p| && p[i].kind.DerivedFrom?
  {
    if forall i :: 0 <= i < |p| ==> !p[i].kind.DerivedFrom? {
      PathClimbs(nodes, es, p, a, a);
    }
  }

  // ---------- the class ----------

  function Indexed(index: map<string, seq<Edge>>, key: string): seq<Edge> {
    if key in index then index[key] else []
  }

  function Push(index: map<string, seq<Edge>>, key: string, edge: Edge): map<string, seq<Edge>> {
    if key in index then index[key := index[key] + [edge]] else index[key := [edge]]
  }

  /** The four maps hold one edge list: by id, by source and by target. */
  ghost predicate Indexes(es: seq<Edge>, edges: map<string, Edge>, outgoing: map<string, seq<Edge>>,
                          incoming: map<string, seq<Edge>>)
  {
    && edges.Keys == (set e | e in es :: e.id)
    && (forall e :: e in es ==> edges[e.id] == e)
    && (forall n :: Indexed(outgoing, n) == Leaving(es, n))
    && (forall n :: Indexed(incoming, n) == Entering(es, n))
  }

  lemma IndexEdge(es: seq<Edge>, edges: map<string, Edge>, outgoing: map<string, seq<Edge>>, incoming: map<string,
                  seq<Edge>>, e: Edge)
    requires Indexes(es, edges, outgoing, incoming) && e.id !in edges
    ensures Indexes(es + [e], edges[e.id := e], Push(outgoing, e.from, e), Push(incoming, e.to, e))
  {
    IndexEnds(es, outgoing, incoming, e);
    assert forall x :: x in es + [e] <==> x in es || x == e;
  }

  lemma IndexEnds(es: seq<Edge>, outgoing: map<string, seq<Edge>>, incoming: map<string, seq<Edge>>, e: Edge)
    requires forall n :: Indexed(outgoing, n) == Leaving(es, n)
    requires forall n :: Indexed(incoming, n) == Entering(es, n)
    ensures forall n :: Indexed(Push(outgoing, e.from, e), n) == Leaving(es + [e], n)
    ensures forall n :: Indexed(Push(incoming, e.to, e), n) == Entering(es + [e], n)
  {
    forall n
      ensures Indexed(Push(outgoing, e.from, e), n) == Leaving(es + [e], n)
      ensures Indexed(Push(incoming, e.to, e), n) == Entering(es + [e], n)
    {
      LeavingSnoc(es, e, n);
      EnteringSnoc(es, e, n);
    }
  }

  lemma WellFormedSnoc(nodes: map<string, Node>, es: seq<Edge>, e: Edge)
    requires WellFormed(nodes, es) && Admissible(nodes, e) && forall x :: x in es ==> x.id != e.id
    ensures WellFormed(nodes, es + [e])
  {
  }

  class LegalGraph {
    var nodes: map<string, Node>
    var edges: map<string, Edge>
    var outgoing: map<string, seq<Edge>>
    var incoming: map<string, seq<Edge>>
    /** The edges in insertion order: what the four maps are an index of. */
    ghost var stored: seq<Edge>

    ghost predicate Valid()
      reads this
    {
      WellFormed(nodes, stored) && Indexes(stored, edges, outgoing, incoming)
    }

    constructor ()
      ensures Valid() && nodes == map[] && stored == []
    {
      nodes, edges, outgoing, incoming := map[], map[], map[], map[];
      stored := [];
    }

    method AddNode(node: Node) returns (r: Result<(), GraphError>)
      requires Valid()
      modifies this`nodes
      ensures Valid()
      ensures r == if node.id in old(nodes) then Failure(DuplicateNode) else Success(())
      ensures nodes == if r.Success? then old(nodes)[node.id := node] else old(nodes)
    {
      if node.id in nodes {
        return Failure(DuplicateNode);
      }
      nodes := nodes[node.id := node];
      return Success(());
    }

    /** An edge is stored exactly when its id is new and the rules admit it; a refusal changes nothing and
        names something that is wrong with the edge. */
    method AddEdge(edge: Edge) returns (r: Result<(), GraphError>)
      requires Valid()
      modifies this
      ensures Valid() && nodes == old(nodes)
      ensures r.Success? <==>
        && edge.id !in old(edges) && edge.from in nodes && edge.to in nodes && !Blank(edge.basis)
        && edge.kind in Joining(nodes[edge.from].kind, nodes[edge.to].kind)
      ensures stored == if r.Success? then old(stored) + [edge] else old(stored)
      ensures r.Failure? ==> edges == old(edges) && outgoing == old(outgoing) && incoming == old(incoming)
      ensures r.Failure? ==> match r.error {
          case DuplicateNode => false
          case DuplicateEdge => edge.id in edges
          case UnknownNode(id) => id in {edge.from, edge.to} && id !in nodes
          case NoBasis => Blank(edge.basis)
          case CannotStartAt(kind) =>
            && edge.from in nodes && nodes[edge.from].kind == kind && kind !in MayStart(edge.kind)
          case CannotEndAt(kind) => edge.to in nodes && nodes[edge.to].kind == kind && kind !in MayEnd(edge.kind)
        }
    {
      if edge.from in nodes && edge.to in nodes {
        RulesAgree(edge.kind, nodes[edge.from].kind, nodes[edge.to].kind);
      }
      if edge.id in edges { return Failure(DuplicateEdge); }
      if edge.from !in nodes { return Failure(UnknownNode(edge.from)); }
      if edge.to !in nodes { return Failure(UnknownNode(edge.to)); }
      if Blank(edge.basis) { return Failure(NoBasis); }
      if nodes[edge.from].kind !in MayStart(edge.kind) { return Failure(CannotStartAt(nodes[edge.from].kind)); }
      if nodes[edge.to].kind !in MayEnd(edge.kind) { return Failure(CannotEndAt(nodes[edge.to].kind)); }

      IndexEdge(stored, edges, outgoing, incoming, edge);
      WellFormedSnoc(nodes, stored, edge);
      edges := edges[edge.id := edge];
      outgoing := Push(outgoing, edge.from, edge);
      incoming := Push(incoming, edge.to, edge);
      stored := stored + [edge];
      return Success(());
    }

    method Outgoing(n: string) returns (es: seq<Edge>)
      requires Valid()
      ensures es == Leaving(stored, n)
      ensures (forall e :: e in es <==> e in stored && e.from == n) && InOrder(stored, es)
    {
      forall e ensures e in Leaving(stored, n) <==> e in stored && e.from == n { LeavingMember(stored, n, e); }
      LeavingOrder(stored, n);
      assert Indexed(outgoing, n) == Leaving(stored, n);
      es := if n in outgoing then outgoing[n] else [];
    }

    method Incoming(n: string) returns (es: seq<Edge>)
      requires Valid()
      ensures es == Entering(stored, n)
      ensures (forall e :: e in es <==> e in stored && e.to == n) && InOrder(stored, es)
    {
      forall e ensures e in Entering(stored, n) <==> e in stored && e.to == n { EnteringMember(stored, n, e); }
      EnteringOrder(stored, n);
      assert Indexed(incoming, n) == Entering(stored, n);
      es := if n in incoming then incoming[n] else [];
    }

    /** A shortest directed path, or nothing exactly when there is none. */
    method PathBetween(fromId: string, toId: string) returns (r: Option<Path>)
      requires Valid()
      ensures r.Some? <==> fromId in nodes && toId in nodes && exists p :: IsPath(stored, p, fromId, toId)
      ensures r.Some? ==> IsPath(stored, r.value.edges, fromId, toId)
      ensures r.Some? ==> forall p :: IsPath(stored, p, fromId, toId) ==> |r.value.edges| <= |p|
      ensures r.Some? ==> NodesOf(nodes, r.value, fromId)
    {
      if fromId !in nodes || toId !in nodes {
        return None;
      }
      if fromId == toId {
        assert IsPath(stored, [], fromId, toId);
        return Some(Path([nodes[fromId]], []));
      }
      var found, previous, dist := Explore(fromId, toId);
      if !found {
        return None;
      }
      var path := Reconstruct(fromId, toId, previous, dist);
      return Some(path);
    }

    /** The breadth-first loop: stops at the first edge into the target, or when nothing is left to expand. */
    method Explore(fromId: string, toId: string)
      returns (found: bool, previous: map<string, Edge>, ghost dist: map<string, nat>)
      requires Valid() && fromId in nodes && fromId != toId
      ensures !found ==> forall p :: !IsPath(stored, p, fromId, toId)
      ensures found ==> Predecessors(stored, fromId, dist, previous) && toId in dist
      ensures found ==> forall p :: IsPath(stored, p, fromId, toId) ==> dist[toId] <= |p|
    {
      ghost var es := stored;
      previous := map[];
      var seen := {fromId};
      var queue := [fromId];
      dist := map[fromId := 0];
      ghost var d: nat := 0;
      StartSearch(es, fromId);
      while queue != []
        invariant dist.Keys == seen && seen <= nodes.Keys && toId !in seen
        invariant Search(es, fromId, dist, previous, queue, d, {})
        decreases nodes.Keys - seen, |queue|
      {
        PopNode(es, fromId, dist, previous, queue, d);
        var current := queue[0];
        d := dist[current];
        var out := Outgoing(current);
        found, seen, previous, queue, dist :=
          Expand(es, nodes.Keys, fromId, toId, out, current, seen, previous, queue[1..], dist, d);
        if found {
          return;
        }
      }
      NoPath(es, fromId, dist, previous, d, toId);
      return false, previous, dist;
    }

    /** Visits the edges out of one node. */
    static method Expand(ghost es: seq<Edge>, ghost known: set<string>, ghost fromId: string, toId: string,
                         out: seq<Edge>,
                         current: string, seen0: set<string>, previous0: map<string, Edge>, queue0: seq<string>,
                         ghost dist0: map<string, nat>, ghost d: nat)
      returns (found: bool, seen: set<string>, previous: map<string, Edge>, queue: seq<string>, ghost dist: map<string,
               nat>)
      requires out == Leaving(es, current) && forall e :: e in es ==> e.to in known
      requires dist0.Keys == seen0 && seen0 <= known && toId !in seen0 && current in dist0 && dist0[current] == d
      requires Search(es, fromId, dist0, previous0, queue0, d, {current})
      ensures !found ==>
        dist.Keys == seen && seen <= known && toId !in seen && Search(es, fromId, dist, previous, queue, d, {})
      ensures !found ==> seen0 <= seen && (seen == seen0 ==> queue == queue0)
      ensures found ==> Predecessors(es, fromId, dist, previous) && toId in dist
      ensures found ==> forall p :: IsPath(es, p, fromId, toId) ==> dist[toId] <= |p|
    {
      seen, previous, queue, dist := seen0, previous0, queue0, dist0;
      for i := 0 to |out|
        invariant dist.Keys == seen && seen <= known && toId !in seen && current in dist && dist[current] == d
        invariant Search(es, fromId, dist, previous, queue, d, {current})
        invariant HeadsSeen(out, i, seen)
        invariant seen0 <= seen && (seen == seen0 ==> queue == queue0)
      {
        var edge := out[i];
        LeavingMember(es, current, edge);
        HeadsStep(out, i, seen);
        if edge.to !in seen {
          DiscoverNode(es, fromId, dist, previous, queue, d, current, edge);
          if edge.to == toId {
            NoShorter(es, fromId, dist, queue, previous, d, current, toId);
            return true, seen + {toId}, previous[toId := edge], queue, dist[toId := d + 1];
          }
          seen := seen + {edge.to};
          previous := previous[edge.to := edge];
          queue := queue + [edge.to];
          dist := dist[edge.to := d + 1];
        }
      }
      CloseNode(es, fromId, dist, previous, queue, d, current);
      found := false;
    }

    method Reconstruct(fromId: string, toId: string, previous: map<string, Edge>, ghost dist: map<string, nat>)
      returns (path: Path)
      requires Valid() && fromId in nodes
      requires Predecessors(stored, fromId, dist, previous) && toId in dist
      ensures IsPath(stored, path.edges, fromId, toId) && |path.edges| == dist[toId] && NodesOf(nodes, path, fromId)
    {
      ghost var es := stored;
      var chain: seq<Edge> := [];
      var walker := toId;
      assert toId != fromId ==> LastEdge(es, dist, previous, toId);
      while walker != fromId && walker in previous
        invariant walker in dist && IsPath(es, chain, walker, toId)
        invariant |chain| + dist[walker] == dist[toId]
        invariant walker != fromId ==> LastEdge(es, dist, previous, walker)
        decreases dist[walker]
      {
        assert LastEdge(es, dist, previous, walker);
        var edge := previous[walker];
        PrependEdge(es, edge, chain, toId);
        chain := [edge] + chain;
        walker := edge.from;
        assert walker != fromId ==> LastEdge(es, dist, previous, walker);
      }
      HeadsKnown(nodes, es, chain, fromId, toId);
      path := Path([nodes[fromId]] + HeadNodes(nodes, chain), chain);
    }

    /** Lists exactly what the provenance relation reaches, each node once, each joined to what came before it
        by the edge beside it; and says whether all of those edges are attributable, naming those that are not. */
    method WhyIncluded(nodeId: string) returns (r: Result<ProvenanceAnswer, GraphError>)
      requires Valid()
      ensures r.Failure? <==> nodeId !in nodes
      ensures r.Failure? ==> r == Failure(UnknownNode(nodeId))
      ensures r.Success? ==> Accounts(nodes, stored, nodeId, r.value)
      ensures r.Success? ==>
        forall x :: x in StepNodes(r.value.steps) <==> x != nodeId && Chained(Edges(stored), nodeId, x)
      ensures r.Success? ==>
        forall s, e :: s in r.value.steps && e in stored && e.from == nodeId && e.to == s.node.id ==>
          FirstStored(stored, nodeId, s.node.id, s.edge)
      ensures r.Success? ==> (r.value.fullyAttributable <==> forall s :: s in r.value.steps ==> Vouched(s.edge))
      ensures r.Success? ==>
        forall id :: id in r.value.unattributableEdgeIds <==>
          exists s :: s in r.value.steps && s.edge.id == id && !Vouched(s.edge)
    {
      if nodeId !in nodes {
        return Failure(UnknownNode(nodeId));
      }
      ghost var es := stored;
      var steps: seq<ProvenanceStep> := [];
      var unattributable: seq<string> := [];
      var seen := {nodeId};
      var queue := [nodeId];
      StartWalk(nodes, es, nodeId);
      while queue != []
        invariant Tracked(nodes, es, nodeId, steps, unattributable, seen)
        invariant Walking(es, seen, queue, {})
        invariant Direct(es, nodeId, steps) && (queue == [nodeId] || StartFirst(es, nodeId, seen))
        decreases nodes.Keys - seen, |queue|
      {
        PopWalk(es, seen, queue);
        var current := queue[0];
        var out := Outgoing(current);
        steps, unattributable, seen, queue :=
          FollowOut(es, nodeId, nodes, out, current, steps, unattributable, seen, queue[1..]);
        var into := Incoming(current);
        steps, unattributable, seen, queue :=
          FollowRequires(es, nodeId, nodes, into, current, steps, unattributable, seen, queue);
      }
      Concludes(nodes, es, nodeId, steps, unattributable, seen);
      AccountsPlainly(nodes, es, nodeId, ProvenanceAnswer(nodes[nodeId], steps, unattributable == [], unattributable));
      return Success(ProvenanceAnswer(nodes[nodeId], steps, unattributable == [], unattributable));
    }

    static method FollowOut(ghost es: seq<Edge>, ghost start: string, nodes: map<string, Node>, out: seq<Edge>,
                            current: string, steps0: seq<ProvenanceStep>, unattributable0: seq<string>,
                            seen0: set<string>, queue0: seq<string>)
      returns (steps: seq<ProvenanceStep>, unattributable: seq<string>, seen: set<string>, queue: seq<string>)
      requires WellFormed(nodes, es) && out == Leaving(es, current) && current in seen0
      requires Tracked(nodes, es, start, steps0, unattributable0, seen0) && Walking(es, seen0, queue0, {current})
      requires Direct(es, start, steps0) && (current == start || StartFirst(es, start, seen0))
      ensures Tracked(nodes, es, start, steps, unattributable, seen) && Walking(es, seen, queue, {current})
      ensures Direct(es, start, steps) && StartFirst(es, start, seen)
      ensures HeadsSeen(out, |out|, seen)
      ensures seen0 <= seen && (seen == seen0 ==> queue == queue0)
    {
      steps, unattributable, seen, queue := steps0, unattributable0, seen0, queue0;
      for i := 0 to |out|
        invariant Tracked(nodes, es, start, steps, unattributable, seen) && Walking(es, seen, queue, {current})
        invariant HeadsSeen(out, i, seen)
        invariant Direct(es, start, steps) && (current == start || StartFirst(es, start, seen))
        invariant seen0 <= seen && (seen == seen0 ==> queue == queue0)
      {
        var edge := out[i];
        LeavingMember(es, current, edge);
        assert Admissible(nodes, edge);
        HeadsStep(out, i, seen);
        if edge.to in seen || edge.to !in nodes {
          continue;
        }
        TrackNode(nodes, es, start, steps, unattributable, seen, edge, current, edge.to);
        DirectNext(es, start, steps, seen, ProvenanceStep(edge, nodes[edge.to]), i);
        PushWalk(es, seen, queue, current, edge.to);
        seen := seen + {edge.to};
        steps := steps + [ProvenanceStep(edge, nodes[edge.to])];
        unattributable := unattributable + (if Attributable(edge) then [] else [edge.id]);
        queue := queue + [edge.to];
      }
    }

    /** A requirement that asked for a node also explains its presence. */
    static method FollowRequires(ghost es: seq<Edge>, ghost start: string, nodes: map<string, Node>, into: seq<Edge>,
                                 current: string, steps0: seq<ProvenanceStep>, unattributable0: seq<string>,
                                 seen0: set<string>, queue0: seq<string>)
      returns (steps: seq<ProvenanceStep>, unattributable: seq<string>, seen: set<string>, queue: seq<string>)
      requires WellFormed(nodes, es) && into == Entering(es, current) && current in seen0
      requires HeadsSeen(Leaving(es, current), |Leaving(es, current)|, seen0)
      requires Tracked(nodes, es, start, steps0, unattributable0, seen0) && Walking(es, seen0, queue0, {current})
      requires Direct(es, start, steps0) && StartFirst(es, start, seen0)
      ensures Tracked(nodes, es, start, steps, unattributable, seen) && Walking(es, seen, queue, {})
      ensures Direct(es, start, steps) && StartFirst(es, start, seen)
      ensures seen0 <= seen && (seen == seen0 ==> queue == queue0)
    {
      steps, unattributable, seen, queue := steps0, unattributable0, seen0, queue0;
      for i := 0 to |into|
        invariant Tracked(nodes, es, start, steps, unattributable, seen) && Walking(es, seen, queue, {current})
        invariant TailsSeen(into, i, seen)
        invariant Direct(es, start, steps) && StartFirst(es, start, seen)
        invariant seen0 <= seen && (seen == seen0 ==> queue == queue0)
      {
        var edge := into[i];
        EnteringMember(es, current, edge);
        assert Admissible(nodes, edge);
        TailsStep(into, i, seen);
        if !edge.kind.Requires? || edge.from in seen || edge.from !in nodes {
          continue;
        }
        TrackNode(nodes, es, start, steps, unattributable, seen, edge, current, edge.from);
        DirectNext(es, start, steps, seen, ProvenanceStep(edge, nodes[edge.from]), 0);
        PushWalk(es, seen, queue, current, edge.from);
        seen := seen + {edge.from};
        steps := steps + [ProvenanceStep(edge, nodes[edge.from])];
        unattributable := unattributable + (if Attributable(edge) then [] else [edge.id]);
        queue := queue + [edge.from];
      }
      CloseWalk(es, seen, queue, current);
    }
  }
}
