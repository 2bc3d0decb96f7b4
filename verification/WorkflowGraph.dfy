/**
 * apps/backend/src/modules/workflow-compiler/workflow-graph-validator.service.ts: the order in which
 * the nodes of a canvas workflow are compiled, and what is wrong with its graph.
 */
module WorkflowGraph {
  import opened Prelude
  import opened SortedStrings

  datatype Node = Node(id: string, nodeType: string, displayName: string, disabled: bool)

  /** `edgeType` is the optional field that is preferred to `plainType`. */
  datatype Edge = Edge(edgeType: Option<string>, plainType: string, source: string, target: string)

  datatype GraphIssue =
    | TriggerRequired
    | MultipleTriggers
    | DisconnectedNode(id: string, displayName: string)
    | IllegalCycle(ids: seq<string>)

  datatype GraphReport = GraphReport(issues: seq<GraphIssue>, skippedEdges: seq<string>, order: seq<string>)

  datatype Arc = Arc(source: string, target: string)

  /** The executable nodes, where the order starts, and the runtime edges between executable nodes. */
  datatype Graph = Graph(ids: set<string>, roots: set<string>, arcs: seq<Arc>)

  const RUNTIME_TYPES: set<string> :=
    {"control", "control_flow", "approval", "approval_flow", "error", "error_flow", "loop", "loop_flow"}

  predicate Executable(node: Node) {
    node.nodeType != "note" && node.nodeType != "group" && !node.disabled
  }

  predicate RuntimeEdge(edge: Edge) {
    OrElse(edge.edgeType, edge.plainType) in RUNTIME_TYPES
  }

  // ----- The graph of a workflow -----

  function ExecutableNodes(nodes: seq<Node>): seq<Node> {
    if nodes == [] then []
    else ExecutableNodes(nodes[..|nodes| - 1]) + if Executable(nodes[|nodes| - 1]) then [nodes[|nodes| - 1]] else []
  }

  function NodeIds(nodes: seq<Node>): set<string> {
    set i | 0 <= i < |nodes| :: nodes[i].id
  }

  /** The ids in the order in which they first occur, as a JavaScript Set enumerates them. */
  function IdList(nodes: seq<Node>): seq<string> {
    if nodes == [] then []
    else
      var ids, id := IdList(nodes[..|nodes| - 1]), nodes[|nodes| - 1].id;
      if id in ids then ids else ids + [id]
  }

  function TriggerIds(nodes: seq<Node>): seq<string> {
    if nodes == [] then []
    else
      var last := nodes[|nodes| - 1];
      TriggerIds(nodes[..|nodes| - 1]) + if last.nodeType == "trigger" then [last.id] else []
  }

  predicate Connects(ids: set<string>, edge: Edge) {
    RuntimeEdge(edge) && edge.source in ids && edge.target in ids
  }

  function ArcsOf(ids: set<string>, edges: seq<Edge>): seq<Arc> {
    if edges == [] then []
    else
      var last := edges[|edges| - 1];
      ArcsOf(ids, edges[..|edges| - 1]) + if Connects(ids, last) then [Arc(last.source, last.target)] else []
  }

  /** The sources of the runtime edges that lack an end. */
  function SkippedEdges(ids: set<string>, edges: seq<Edge>): seq<string> {
    if edges == [] then []
    else
      var last := edges[|edges| - 1];
      SkippedEdges(ids, edges[..|edges| - 1])
      + if RuntimeEdge(last) && !Connects(ids, last) then [last.source] else []
  }

  predicate HasArc(arcs: seq<Arc>, source: string, target: string) {
    exists k :: 0 <= k < |arcs| && arcs[k] == Arc(source, target)
  }

  /** Some arc ends in `v`. */
  predicate Entered(arcs: seq<Arc>, v: string) {
    exists k :: 0 <= k < |arcs| && arcs[k].target == v
  }

  function GraphOf(nodes: seq<Node>, edges: seq<Edge>): Graph {
    var executable := ExecutableNodes(nodes);
    var ids, triggers := NodeIds(executable), TriggerIds(executable);
    var arcs := ArcsOf(ids, edges);
    var starts := if triggers != [] then Elements(triggers) else (set id | id in ids && !Entered(arcs, id));
    Graph(ids, starts, arcs)
  }

  /** What the construction guarantees. */
  ghost predicate Proper(g: Graph) {
    g.roots <= g.ids && forall k :: 0 <= k < |g.arcs| ==> g.arcs[k].source in g.ids && g.arcs[k].target in g.ids
  }

  // ----- The order, said without an algorithm -----

  ghost predicate SourcesIn(arcs: seq<Arc>, v: string, done: set<string>) {
    forall k :: 0 <= k < |arcs| && arcs[k].target == v ==> arcs[k].source in done
  }

  /** `v` may come next: it is a root, or it is entered and only from nodes that are done. */
  ghost predicate Ready(g: Graph, done: set<string>, v: string) {
    v in g.ids && v !in done && (v in g.roots || (Entered(g.arcs, v) && SourcesIn(g.arcs, v, done)))
  }

  /** Each node is the least, as strings compare, of those that may come next. */
  ghost predicate LeastFirst(g: Graph, order: seq<string>) {
    forall i :: 0 <= i < |order| ==> IsNext(g, order, i)
  }

  ghost predicate IsNext(g: Graph, order: seq<string>, i: nat)
    requires i < |order|
  {
    && Ready(g, Elements(order[..i]), order[i])
    && forall v :: Ready(g, Elements(order[..i]), v) ==> AtMost(order[i], v)
  }

  /** The order goes on until no node may come next. */
  ghost predicate IsOrder(g: Graph, order: seq<string>) {
    LeastFirst(g, order) && forall v :: !Ready(g, Elements(order), v)
  }

  // ----- Counting open arcs -----

  /** The arcs into `v` from nodes that are not done. */
  function Open(arcs: seq<Arc>, done: set<string>, v: string): nat {
    if arcs == [] then 0
    else
      var last := arcs[|arcs| - 1];
      Open(arcs[..|arcs| - 1], done, v) + if last.target == v && last.source !in done then 1 else 0
  }

  function Targets(arcs: seq<Arc>, u: string): seq<string> {
    if arcs == [] then []
    else Targets(arcs[..|arcs| - 1], u) + if arcs[|arcs| - 1].source == u then [arcs[|arcs| - 1].target] else []
  }

  lemma {:induction false} OpenWithout(arcs: seq<Arc>, done: set<string>, u: string, v: string)
    requires u !in done
    ensures Open(arcs, done, v) == Open(arcs, done + {u}, v) + multiset(Targets(arcs, u))[v]
  {
    if arcs != [] {
      OpenWithout(arcs[..|arcs| - 1], done, u, v);
    }
  }

  lemma {:induction false} OpenZero(arcs: seq<Arc>, done: set<string>, v: string)
    ensures Open(arcs, done, v) == 0 <==> SourcesIn(arcs, v, done)
  {
    if arcs != [] {
      var front, last := arcs[..|arcs| - 1], arcs[|arcs| - 1];
      OpenZero(front, done, v);
      assert arcs == front + [last];
      assert SourcesIn(arcs, v, done) <==> SourcesIn(front, v, done) && (last.target == v ==> last.source in done);
    }
  }

  lemma {:induction false} TargetsAre(arcs: seq<Arc>, u: string, v: string)
    ensures v in Targets(arcs, u) <==> HasArc(arcs, u, v)
  {
    if arcs != [] {
      var front, last := arcs[..|arcs| - 1], arcs[|arcs| - 1];
      TargetsAre(front, u, v);
      assert arcs == front + [last];
      assert HasArc(arcs, u, v) <==> HasArc(front, u, v) || last == Arc(u, v) by {
        if HasArc(front, u, v) {
          var k :| 0 <= k < |front| && front[k] == Arc(u, v);
          assert arcs[k] == Arc(u, v);
        }
      }
    }
  }

  // ----- Building the maps -----

  type Adjacency = map<string, seq<string>>
  type Counts = map<string, nat>

  ghost predicate Indexes(ids: set<string>, arcs: seq<Arc>, adjacency: Adjacency, indegree: Counts) {
    && adjacency.Keys == ids && indegree.Keys == ids
    && forall v :: v in ids ==> adjacency[v] == Targets(arcs, v) && indegree[v] == Open(arcs, {}, v)
  }

  /** The body of the loop over the edges. */
  method ConnectEdge(ids: set<string>, edge: Edge, ghost arcs: seq<Arc>, adjacency: Adjacency, indegree: Counts,
                     skipped: seq<string>)
    returns (adjacency': Adjacency, indegree': Counts, skipped': seq<string>)
    requires Indexes(ids, arcs, adjacency, indegree)
    ensures Indexes(ids, if Connects(ids, edge) then arcs + [Arc(edge.source, edge.target)] else arcs,
                    adjacency', indegree')
    ensures skipped' == if RuntimeEdge(edge) && !Connects(ids, edge) then skipped + [edge.source] else skipped
  {
    adjacency', indegree', skipped' := adjacency, indegree, skipped;
    if RuntimeEdge(edge) {
      if edge.source !in ids || edge.target !in ids {
        skipped' := skipped + [edge.source];
      } else {
        OneMoreArc(ids, arcs, Arc(edge.source, edge.target), adjacency, indegree);
        adjacency' := adjacency[edge.source := adjacency[edge.source] + [edge.target]];
        indegree' := indegree[edge.target := indegree[edge.target] + 1];
      }
    }
  }

  method ConnectNodes(ids: set<string>, edges: seq<Edge>)
    returns (adjacency: Adjacency, indegree: Counts, skipped: seq<string>)
    ensures Indexes(ids, ArcsOf(ids, edges), adjacency, indegree)
    ensures skipped == SkippedEdges(ids, edges)
  {
    adjacency, indegree, skipped := map id | id in ids :: [], map id | id in ids :: 0, [];
    for i := 0 to |edges|
      invariant Indexes(ids, ArcsOf(ids, edges[..i]), adjacency, indegree)
      invariant skipped == SkippedEdges(ids, edges[..i])
    {
      NextArcs(ids, edges, i);
      adjacency, indegree, skipped := ConnectEdge(ids, edges[i], ArcsOf(ids, edges[..i]), adjacency, indegree, skipped);
    }
    assert edges[..|edges|] == edges;
  }

  lemma NextArcs(ids: set<string>, edges: seq<Edge>, i: nat)
    requires i < |edges|
    ensures var edge, arcs, skipped := edges[i], ArcsOf(ids, edges[..i]), SkippedEdges(ids, edges[..i]);
            && ArcsOf(ids, edges[..i + 1]) ==
               (if Connects(ids, edge) then arcs + [Arc(edge.source, edge.target)] else arcs)
            && SkippedEdges(ids, edges[..i + 1]) ==
               (if RuntimeEdge(edge) && !Connects(ids, edge) then skipped + [edge.source] else skipped)
  {
    assert edges[..i + 1][..i] == edges[..i];
  }

  lemma OneMoreArc(ids: set<string>, arcs: seq<Arc>, arc: Arc, adjacency: Adjacency, indegree: Counts)
    requires Indexes(ids, arcs, adjacency, indegree) && arc.source in ids && arc.target in ids
    ensures Indexes(ids, arcs + [arc], adjacency[arc.source := adjacency[arc.source] + [arc.target]],
                    indegree[arc.target := indegree[arc.target] + 1])
  {
    assert (arcs + [arc])[..|arcs|] == arcs;
  }

  // ----- The traversal -----

  /** What the queue and the counters say while the nodes of `done` are listed. */
  ghost predicate Queued(g: Graph, done: set<string>, queue: seq<string>) {
    && Sorted(queue)
    && (forall v :: v in queue ==> v in g.ids && (v in done || Ready(g, done, v)))
    && forall v :: Ready(g, done, v) ==> v in queue
  }

  ghost predicate Counted(g: Graph, done: set<string>, indegree: Counts) {
    indegree.Keys == g.ids && forall v :: v in g.ids ==> indegree[v] == Open(g.arcs, done, v)
  }

  /** In the middle of the loop over the targets of the node just listed; `rest` are those to come. */
  ghost predicate HalfQueued(g: Graph, done: set<string>, queue: seq<string>, rest: seq<string>) {
    && Sorted(queue)
    && (forall v :: v in queue ==> v in g.ids && (v in done || Ready(g, done, v)))
    && forall v :: Ready(g, done, v) ==> v in queue || (v !in g.roots && v in rest)
  }

  ghost predicate HalfCounted(g: Graph, done: set<string>, indegree: Counts, rest: seq<string>) {
    && indegree.Keys == g.ids
    && forall v :: v in g.ids ==> indegree[v] == Open(g.arcs, done, v) + multiset(rest)[v]
  }

  /** Listing `u` opens the loop over its targets. */
  lemma StartTargets(g: Graph, done: set<string>, u: string, queue: seq<string>, indegree: Counts, targets: seq<string>)
    requires Proper(g) && queue != [] && queue[0] == u && u !in done
    requires Queued(g, done, queue) && Counted(g, done, indegree)
    requires multiset(targets) == multiset(Targets(g.arcs, u))
    ensures HalfQueued(g, done + {u}, queue[1..], targets)
    ensures HalfCounted(g, done + {u}, indegree, targets)
  {
    forall v | v in g.ids
      ensures indegree[v] == Open(g.arcs, done + {u}, v) + multiset(targets)[v]
    {
      OpenWithout(g.arcs, done, u, v);
    }
    forall v
      ensures v in queue ==> v == u || v in queue[1..]
      ensures v in queue[1..] ==> v in queue
    {
      assert queue == [queue[0]] + queue[1..];
    }
    forall v | v in queue
      ensures v in g.ids && (v in done + {u} || Ready(g, done + {u}, v))
    {
      StaysReady(g, done, u, v);
    }
    forall v | Ready(g, done + {u}, v)
      ensures Ready(g, done, v) || (v !in g.roots && v in targets)
    {
      BecomesReady(g, done, u, v);
      assert v in Targets(g.arcs, u) <==> v in multiset(targets);
    }
  }

  lemma StaysReady(g: Graph, done: set<string>, u: string, v: string)
    requires v in done || Ready(g, done, v)
    ensures v in done + {u} || Ready(g, done + {u}, v)
  {
  }

  lemma BecomesReady(g: Graph, done: set<string>, u: string, v: string)
    requires Ready(g, done + {u}, v)
    ensures Ready(g, done, v) || (v !in g.roots && v in Targets(g.arcs, u))
  {
    if !Ready(g, done, v) {
      var k :| 0 <= k < |g.arcs| && g.arcs[k].target == v && g.arcs[k].source !in done;
      assert HasArc(g.arcs, u, v);
      TargetsAre(g.arcs, u, v);
    }
  }

  /** One turn of the loop over targets, as far as the counters are concerned. */
  lemma NextCount(g: Graph, done: set<string>, indegree: Counts, t: string, rest: seq<string>)
    requires HalfCounted(g, done, indegree, [t] + rest) && t in g.ids
    ensures indegree[t] >= 1 && HalfCounted(g, done, indegree[t := indegree[t] - 1], rest)
    ensures indegree[t] == 1 <==> SourcesIn(g.arcs, t, done) && t !in rest
  {
    assert multiset([t] + rest) == multiset{t} + multiset(rest);
    OpenZero(g.arcs, done, t);
    assert t in rest <==> multiset(rest)[t] > 0;
  }

  /** The target is queued in its last turn, when all of its sources are done. */
  lemma NextTarget(g: Graph, done: set<string>, u: string, queue: seq<string>, t: string, rest: seq<string>,
                   longer: seq<string>)
    requires Proper(g) && u in done && HasArc(g.arcs, u, t) && t in g.ids
    requires HalfQueued(g, done, queue, [t] + rest) && Sorted(longer)
    requires forall v :: v in longer <==> v in queue || (v == t && SourcesIn(g.arcs, t, done) && t !in rest)
    ensures HalfQueued(g, done, longer, rest)
  {
    var k :| 0 <= k < |g.arcs| && g.arcs[k] == Arc(u, t);
    assert Entered(g.arcs, t);
    forall v | Ready(g, done, v)
      ensures v in longer || (v !in g.roots && v in rest)
    {
      assert v in [t] + rest <==> v == t || v in rest;
    }
  }

  lemma ArcEnds(g: Graph, u: string, v: string)
    requires Proper(g) && HasArc(g.arcs, u, v)
    ensures u in g.ids && v in g.ids && Entered(g.arcs, v)
  {
    var k :| 0 <= k < |g.arcs| && g.arcs[k] == Arc(u, v);
    assert g.arcs[k].target == v;
  }

  method VisitTargets(ghost g: Graph, ghost done: set<string>, u: string, queue: seq<string>, indegree: Counts,
                      targets: seq<string>)
    returns (queue': seq<string>, indegree': Counts)
    requires Proper(g) && u in done && forall t :: t in targets ==> HasArc(g.arcs, u, t)
    requires HalfQueued(g, done, queue, targets) && HalfCounted(g, done, indegree, targets)
    ensures Queued(g, done, queue') && Counted(g, done, indegree')
  {
    queue', indegree' := queue, indegree;
    for i := 0 to |targets|
      invariant HalfQueued(g, done, queue', targets[i..]) && HalfCounted(g, done, indegree', targets[i..])
    {
      var t := targets[i];
      assert targets[i..] == [t] + targets[i + 1..];
      ArcEnds(g, u, t);
      NextCount(g, done, indegree', t, targets[i + 1..]);
      var next := if indegree'[t] - 1 > 0 then indegree'[t] - 1 else 0;
      var longer := queue';
      if next == 0 {
        longer := Sort(queue' + [t]);
        SameElements(longer, queue' + [t]);
      }
      NextTarget(g, done, u, queue', t, targets[i + 1..], longer);
      queue', indegree' := longer, indegree'[t := next];
    }
  }

  lemma SameElements(a: seq<string>, b: seq<string>)
    requires multiset(a) == multiset(b)
    ensures forall v :: v in a <==> v in b
  {
    forall v
      ensures v in a <==> v in b
    {
      assert v in a <==> v in multiset(a);
    }
  }

  lemma OneMoreNode(g: Graph, order: seq<string>, u: string)
    requires LeastFirst(g, order) && Ready(g, Elements(order), u)
    requires forall v :: Ready(g, Elements(order), v) ==> AtMost(u, v)
    ensures LeastFirst(g, order + [u]) && Elements(order + [u]) == Elements(order) + {u}
  {
    var longer := order + [u];
    forall i | 0 <= i < |longer|
      ensures IsNext(g, longer, i)
    {
      if i < |order| {
        assert longer[..i] == order[..i];
        assert IsNext(g, order, i);
      } else {
        assert longer[..i] == order;
      }
    }
  }

  /** What listing the head of the queue gives the loop over its targets to start with. */
  lemma ListNode(g: Graph, order: seq<string>, queue: seq<string>, indegree: Counts, targets: seq<string>)
    requires Proper(g) && LeastFirst(g, order) && queue != [] && queue[0] !in order
    requires Queued(g, Elements(order), queue) && Counted(g, Elements(order), indegree)
    requires multiset(targets) == multiset(Targets(g.arcs, queue[0]))
    ensures var u := queue[0];
            && LeastFirst(g, order + [u]) && Elements(order + [u]) == Elements(order) + {u} && u in g.ids
            && HalfQueued(g, Elements(order) + {u}, queue[1..], targets)
            && HalfCounted(g, Elements(order) + {u}, indegree, targets)
            && forall t :: t in targets ==> HasArc(g.arcs, u, t)
  {
    var u := queue[0];
    HeadIsLeast(queue);
    OneMoreNode(g, order, u);
    StartTargets(g, Elements(order), u, queue, indegree, targets);
    SameElements(targets, Targets(g.arcs, u));
    forall t | t in targets
      ensures HasArc(g.arcs, u, t)
    {
      TargetsAre(g.arcs, u, t);
    }
  }

  lemma SkipListed(g: Graph, done: set<string>, queue: seq<string>)
    requires Queued(g, done, queue) && queue != [] && queue[0] in done
    ensures Queued(g, done, queue[1..])
  {
    assert queue == [queue[0]] + queue[1..];
  }

  method Traverse(ghost g: Graph, roots: seq<string>, adjacency: Adjacency, degrees: Counts)
    returns (order: seq<string>, indegree: Counts)
    requires Proper(g) && Indexes(g.ids, g.arcs, adjacency, degrees)
    requires forall id :: id in roots <==> id in g.roots
    ensures IsOrder(g, order) && Counted(g, Elements(order), indegree)
  {
    var visited: set<string> := {};
    var queue := Sort(roots);
    indegree := degrees;
    order := [];
    StartQueue(g, roots, queue);
    while queue != []
      invariant visited == Elements(order) && visited <= g.ids
      invariant LeastFirst(g, order)
      invariant Queued(g, visited, queue) && Counted(g, visited, indegree)
      decreases g.ids - visited, |queue|
    {
      var u := queue[0];
      if u in visited {
        SkipListed(g, visited, queue);
        queue := queue[1..];
      } else {
        var targets := Sort(adjacency[u]);
        ListNode(g, order, queue, indegree, targets);
        visited, order := visited + {u}, order + [u];
        queue, indegree := VisitTargets(g, visited, u, queue[1..], indegree, targets);
      }
    }
  }

  lemma StartQueue(g: Graph, roots: seq<string>, queue: seq<string>)
    requires Proper(g) && forall id :: id in roots <==> id in g.roots
    requires Sorted(queue) && multiset(queue) == multiset(roots)
    ensures Queued(g, {}, queue)
  {
    SameElements(queue, roots);
    forall v
      ensures !(Entered(g.arcs, v) && SourcesIn(g.arcs, v, {}))
    {
      if k :| 0 <= k < |g.arcs| && g.arcs[k].target == v {
        var none: set<string> := {};
        assert g.arcs[k].source !in none;
      }
    }
  }

  // ----- The report -----

  function TriggerIssues(triggers: seq<string>): seq<GraphIssue> {
    if triggers == [] then [TriggerRequired] else if |triggers| > 1 then [MultipleTriggers] else []
  }

  function DisconnectedIssues(nodes: seq<Node>, done: set<string>): seq<GraphIssue> {
    if nodes == [] then []
    else
      var last := nodes[|nodes| - 1];
      DisconnectedIssues(nodes[..|nodes| - 1], done)
      + if last.id !in done then [DisconnectedNode(last.id, last.displayName)] else []
  }

  /** The listed ids that are not done and have an open arc, in order. */
  function Stuck(arcs: seq<Arc>, ids: seq<string>, done: set<string>): seq<string> {
    if ids == [] then []
    else
      var last := ids[|ids| - 1];
      Stuck(arcs, ids[..|ids| - 1], done) + if Open(arcs, done, last) > 0 && last !in done then [last] else []
  }

  function CycleIssues(stuck: seq<string>): seq<GraphIssue> {
    if stuck == [] then [] else [IllegalCycle(stuck)]
  }

  /** The issues of a workflow whose nodes are listed in `order`. */
  function IssuesOf(nodes: seq<Node>, edges: seq<Edge>, order: seq<string>): seq<GraphIssue> {
    var executable, done := ExecutableNodes(nodes), Elements(order);
    TriggerIssues(TriggerIds(executable))
    + DisconnectedIssues(executable, done)
    + CycleIssues(Stuck(GraphOf(nodes, edges).arcs, IdList(executable), done))
  }

  method ReportDisconnected(nodes: seq<Node>, visited: set<string>) returns (issues: seq<GraphIssue>)
    ensures issues == DisconnectedIssues(nodes, visited)
  {
    issues := [];
    for i := 0 to |nodes|
      invariant issues == DisconnectedIssues(nodes[..i], visited)
    {
      assert nodes[..i + 1][..i] == nodes[..i];
      if nodes[i].id !in visited {
        issues := issues + [DisconnectedNode(nodes[i].id, nodes[i].displayName)];
      }
    }
    assert nodes[..|nodes|] == nodes;
  }

  lemma {:induction false} IdListHolds(nodes: seq<Node>)
    ensures forall id :: id in IdList(nodes) <==> id in NodeIds(nodes)
  {
    if nodes != [] {
      var front, last := nodes[..|nodes| - 1], nodes[|nodes| - 1];
      IdListHolds(front);
      assert nodes == front + [last];
      assert NodeIds(nodes) == NodeIds(front) + {last.id} by {
        assert forall i :: 0 <= i < |front| ==> nodes[i] == front[i];
      }
    }
  }

  lemma {:induction false} TriggersAreNodes(nodes: seq<Node>)
    ensures forall id :: id in TriggerIds(nodes) ==> id in NodeIds(nodes)
  {
    if nodes != [] {
      var front, last := nodes[..|nodes| - 1], nodes[|nodes| - 1];
      TriggersAreNodes(front);
      assert forall i :: 0 <= i < |front| ==> nodes[i] == front[i];
      assert nodes[|front|].id in NodeIds(nodes);
    }
  }

  lemma {:induction false} ArcsAreProper(ids: set<string>, edges: seq<Edge>)
    ensures forall k :: 0 <= k < |ArcsOf(ids, edges)| ==>
              ArcsOf(ids, edges)[k].source in ids && ArcsOf(ids, edges)[k].target in ids
  {
    if edges != [] {
      ArcsAreProper(ids, edges[..|edges| - 1]);
    }
  }

  lemma GraphIsProper(nodes: seq<Node>, edges: seq<Edge>)
    ensures Proper(GraphOf(nodes, edges))
  {
    TriggersAreNodes(ExecutableNodes(nodes));
    ArcsAreProper(NodeIds(ExecutableNodes(nodes)), edges);
  }

  /** The triggers, or the nodes that no edge enters when there is none. */
  method FindRoots(ghost arcs: seq<Arc>, ids: seq<string>, triggers: seq<string>, indegree: Counts)
    returns (roots: seq<string>)
    requires forall id :: id in ids ==> id in indegree && indegree[id] == Open(arcs, {}, id)
    ensures triggers != [] ==> roots == triggers
    ensures triggers == [] ==> forall id :: id in roots <==> id in ids && !Entered(arcs, id)
  {
    if triggers != [] {
      return triggers;
    }
    roots := [];
    for i := 0 to |ids|
      invariant forall id :: id in roots <==> id in ids[..i] && !Entered(arcs, id)
    {
      UnenteredIffNoneOpen(arcs, ids[i]);
      if indegree[ids[i]] == 0 {
        roots := roots + [ids[i]];
      }
    }
    assert ids[..|ids|] == ids;
  }

  lemma UnenteredIffNoneOpen(arcs: seq<Arc>, v: string)
    ensures Open(arcs, {}, v) == 0 <==> !Entered(arcs, v)
  {
    var none: set<string> := {};
    OpenZero(arcs, none, v);
    if k :| 0 <= k < |arcs| && arcs[k].target == v {
      assert arcs[k].source !in none;
    }
  }

  method FindStuck(ghost arcs: seq<Arc>, ids: seq<string>, visited: set<string>, indegree: Counts)
    returns (stuck: seq<string>)
    requires forall id :: id in ids ==> id in indegree && indegree[id] == Open(arcs, visited, id)
    ensures stuck == Stuck(arcs, ids, visited)
  {
    stuck := [];
    for i := 0 to |ids|
      invariant stuck == Stuck(arcs, ids[..i], visited)
    {
      assert ids[..i + 1][..i] == ids[..i];
      if indegree[ids[i]] > 0 && ids[i] !in visited {
        stuck := stuck + [ids[i]];
      }
    }
    assert ids[..|ids|] == ids;
  }

  method Validate(nodes: seq<Node>, edges: seq<Edge>) returns (report: GraphReport)
    ensures IsOrder(GraphOf(nodes, edges), report.order)
    ensures report.issues == IssuesOf(nodes, edges, report.order)
    ensures report.skippedEdges == SkippedEdges(NodeIds(ExecutableNodes(nodes)), edges)
    ensures ReportsIssues(nodes, edges, report.order, report.issues)
    ensures Picks(edges, report.skippedEdges, SkipGives(nodes))
  {
    var executable := ExecutableNodes(nodes);
    var triggers, ids := TriggerIds(executable), IdList(executable);
    IdListHolds(executable);
    var adjacency, indegree, skipped := ConnectNodes(NodeIds(executable), edges);
    ghost var g := GraphOf(nodes, edges);
    GraphIsProper(nodes, edges);
    var roots := FindRoots(g.arcs, ids, triggers, indegree);
    var order;
    order, indegree := Traverse(g, roots, adjacency, indegree);
    var visited := Elements(order);
    var disconnected := ReportDisconnected(executable, visited);
    var stuck := FindStuck(g.arcs, ids, visited, indegree);
    report := GraphReport(TriggerIssues(triggers) + disconnected + CycleIssues(stuck), skipped, order);
    IssuesExact(nodes, edges, order);
    ArcsPicked(nodes, edges);
  }

  // ----- What the order means -----

  lemma {:induction false} OrderIsDistinct(g: Graph, order: seq<string>, i: nat, j: nat)
    requires LeastFirst(g, order) && i < j < |order|
    ensures order[i] != order[j]
  {
    assert IsNext(g, order, j);
    assert order[..j][i] == order[i];
  }

  /** No node is listed twice, and an arc into a listed node that is no root comes from a node listed before. */
  lemma OrderGoesForward(g: Graph, order: seq<string>, u: string, j: nat)
    requires LeastFirst(g, order) && j < |order| && order[j] !in g.roots && HasArc(g.arcs, u, order[j])
    ensures u in order[..j] && u != order[j]
  {
    assert IsNext(g, order, j);
    var k :| 0 <= k < |g.arcs| && g.arcs[k] == Arc(u, order[j]);
    assert g.arcs[k].source in Elements(order[..j]);
  }

  /** A graph has one order: the traversal leaves nothing to the order of its edges. */
  lemma OrderUnique(g: Graph, x: seq<string>, y: seq<string>)
    requires IsOrder(g, x) && IsOrder(g, y)
    ensures x == y
  {
    if |x| <= |y| {
      OrdersAgree(g, x, y, |x|);
      OrderEnds(g, x, y);
    } else {
      OrdersAgree(g, y, x, |y|);
      OrderEnds(g, y, x);
    }
  }

  lemma {:induction false} OrdersAgree(g: Graph, x: seq<string>, y: seq<string>, n: nat)
    requires LeastFirst(g, x) && LeastFirst(g, y) && n <= |x| && n <= |y|
    ensures x[..n] == y[..n]
  {
    if n > 0 {
      OrdersAgree(g, x, y, n - 1);
      assert IsNext(g, x, n - 1) && IsNext(g, y, n - 1);
      if x[n - 1] != y[n - 1] {
        LessTransitive(x[n - 1], y[n - 1], x[n - 1]);
        LessIrreflexive(x[n - 1]);
        assert false;
      }
      assert x[..n] == x[..n - 1] + [x[n - 1]] && y[..n] == y[..n - 1] + [y[n - 1]];
    }
  }

  lemma OrderEnds(g: Graph, x: seq<string>, y: seq<string>)
    requires IsOrder(g, x) && LeastFirst(g, y) && |x| <= |y| && x[..|x|] == y[..|x|]
    ensures x == y
  {
    assert x[..|x|] == x;
    assert |x| < |y| ==> !IsNext(g, y, |x|);
    assert y[..|y|] == y;
  }

  // ----- Which nodes are not reached, said with walks -----

  /** Nodes that follow each other along arcs, none of them a root. */
  ghost predicate RootFreeWalk(g: Graph, p: seq<string>) {
    && p != []
    && (forall i :: 0 <= i < |p| ==> p[i] in g.ids && p[i] !in g.roots)
    && forall i :: 0 < i < |p| ==> HasArc(g.arcs, p[i - 1], p[i])
  }

  /** A walk that cannot be started: nothing enters its first node, or it comes back to it. */
  ghost predicate CutOff(g: Graph, p: seq<string>) {
    && RootFreeWalk(g, p)
    && (Entered(g.arcs, p[0]) ==> exists i :: 0 < i < |p| && p[i] == p[0])
  }

  lemma WalkSource(g: Graph, p: seq<string>, i: nat) returns (j: nat)
    requires CutOff(g, p) && i < |p| && Entered(g.arcs, p[i])
    ensures j < |p| && HasArc(g.arcs, p[j], p[i])
  {
    if i > 0 {
      j := i - 1;
    } else {
      var k :| 0 < k < |p| && p[k] == p[0];
      j := k - 1;
    }
  }

  /** No node of a walk that is cut off is ever listed. */
  lemma {:induction false} CutOffUnlisted(g: Graph, order: seq<string>, p: seq<string>, pos: nat, i: nat)
    requires LeastFirst(g, order) && CutOff(g, p) && pos < |order| && i < |p|
    ensures order[pos] != p[i]
    decreases pos
  {
    if order[pos] == p[i] {
      assert IsNext(g, order, pos);
      var j := WalkSource(g, p, i);
      OrderGoesForward(g, order, p[j], pos);
      var pos' :| 0 <= pos' < pos && order[pos'] == p[j];
      CutOffUnlisted(g, order, p, pos', j);
      assert false;
    }
  }

  /** An unlisted node has an unlisted source, unless nothing enters it. */
  lemma UnlistedSource(g: Graph, order: seq<string>, v: string) returns (u: string)
    requires Proper(g) && IsOrder(g, order) && v in g.ids && v !in order && Entered(g.arcs, v)
    ensures u in g.ids && u !in order && HasArc(g.arcs, u, v)
  {
    assert !Ready(g, Elements(order), v);
    var k :| 0 <= k < |g.arcs| && g.arcs[k].target == v && g.arcs[k].source !in Elements(order);
    u := g.arcs[k].source;
    assert g.arcs[k] == Arc(u, v);
  }

  lemma UnlistedNoRoot(g: Graph, order: seq<string>, v: string)
    requires IsOrder(g, order) && v in g.ids && v !in order
    ensures v !in g.roots
  {
    assert !Ready(g, Elements(order), v);
  }

  lemma WalkBack(g: Graph, u: string, p: seq<string>)
    requires RootFreeWalk(g, p) && u in g.ids && u !in g.roots && HasArc(g.arcs, u, p[0])
    ensures RootFreeWalk(g, [u] + p)
  {
    var longer := [u] + p;
    forall i | 0 < i < |longer|
      ensures HasArc(g.arcs, longer[i - 1], longer[i])
    {
      assert longer[i] == p[i - 1];
      if i > 1 {
        assert longer[i - 1] == p[i - 2];
      }
    }
  }

  /** Walking backwards over unlisted nodes ends where nothing enters or comes back to a node of the walk. */
  lemma {:induction false} UnlistedIsCutOff(g: Graph, order: seq<string>, p: seq<string>) returns (q: seq<string>)
    requires Proper(g) && IsOrder(g, order) && RootFreeWalk(g, p) && forall i :: 0 <= i < |p| ==> p[i] !in order
    ensures CutOff(g, q) && |q| >= |p| && q[|q| - |p|..] == p
    decreases g.ids - Elements(p)
  {
    q := p;
    if Entered(g.arcs, p[0]) {
      var u := UnlistedSource(g, order, p[0]);
      UnlistedNoRoot(g, order, u);
      WalkBack(g, u, p);
      q := [u] + p;
      if u in p {
        var i :| 0 <= i < |p| && p[i] == u;
        assert q[i + 1] == q[0];
      } else {
        assert Elements(q) == Elements(p) + {u};
        q := UnlistedIsCutOff(g, order, q);
        assert q[|q| - |p|..] == q[|q| - |p| - 1..][1..];
      }
    }
  }

  /** A node is reported as disconnected exactly when it ends a walk that is cut off from the roots. */
  lemma DisconnectedIff(g: Graph, order: seq<string>, v: string)
    requires Proper(g) && IsOrder(g, order) && v in g.ids
    ensures v !in order <==> exists p :: CutOff(g, p) && p[|p| - 1] == v
  {
    if v !in order {
      UnlistedNoRoot(g, order, v);
      var p := UnlistedIsCutOff(g, order, [v]);
      assert p[|p| - 1] == p[|p| - 1..][0];
    }
    if p :| CutOff(g, p) && p[|p| - 1] == v {
      if v in order {
        var pos :| 0 <= pos < |order| && order[pos] == v;
        CutOffUnlisted(g, order, p, pos, |p| - 1);
        assert false;
      }
    }
  }

  // ----- When a cycle is reported -----

  /** A closed walk that meets no root. */
  ghost predicate RootFreeCycle(g: Graph, p: seq<string>) {
    RootFreeWalk(g, p) && |p| > 1 && p[0] == p[|p| - 1]
  }

  /** An edge from a node that nothing enters, between two nodes that are no roots. */
  ghost predicate StrandedArc(g: Graph, u: string, v: string) {
    HasArc(g.arcs, u, v) && !Entered(g.arcs, u) && u !in g.roots && v !in g.roots
  }

  lemma {:induction false} StuckIs(arcs: seq<Arc>, ids: seq<string>, done: set<string>, v: string)
    ensures v in Stuck(arcs, ids, done) <==> v in ids && v !in done && Open(arcs, done, v) > 0
  {
    if ids != [] {
      StuckIs(arcs, ids[..|ids| - 1], done, v);
    }
  }

  lemma StuckArc(g: Graph, order: seq<string>, v: string)
    requires Proper(g)
    ensures Open(g.arcs, Elements(order), v) > 0 <==> exists u :: HasArc(g.arcs, u, v) && u !in order
  {
    OpenZero(g.arcs, Elements(order), v);
    if u :| HasArc(g.arcs, u, v) && u !in order {
      var k :| 0 <= k < |g.arcs| && g.arcs[k] == Arc(u, v);
      assert g.arcs[k].source !in Elements(order);
    }
    if !SourcesIn(g.arcs, v, Elements(order)) {
      var k :| 0 <= k < |g.arcs| && g.arcs[k].target == v && g.arcs[k].source !in Elements(order);
      assert HasArc(g.arcs, g.arcs[k].source, v);
    }
  }

  /** A walk that is cut off and follows an arc holds a cycle or starts with a stranded arc. */
  lemma CutOffHas(g: Graph, p: seq<string>)
    requires CutOff(g, p) && |p| > 1
    ensures StrandedArc(g, p[0], p[1]) || exists c :: RootFreeCycle(g, c)
  {
    if Entered(g.arcs, p[0]) {
      var i :| 0 < i < |p| && p[i] == p[0];
      assert RootFreeCycle(g, p[..i + 1]);
    } else {
      assert HasArc(g.arcs, p[1 - 1], p[1]);
    }
  }

  /** Two unlisted nodes joined by an arc: the reason for reporting a cycle. */
  ghost predicate UnlistedArc(g: Graph, order: seq<string>, u: string, v: string) {
    HasArc(g.arcs, u, v) && u !in order && v !in order
  }

  lemma UnlistedArcIff(g: Graph, order: seq<string>)
    requires Proper(g) && IsOrder(g, order)
    ensures (exists u, v :: UnlistedArc(g, order, u, v)) <==>
            (exists c :: RootFreeCycle(g, c)) || (exists u, v :: StrandedArc(g, u, v))
  {
    if u, v :| UnlistedArc(g, order, u, v) {
      ArcEnds(g, u, v);
      UnlistedNoRoot(g, order, u);
      UnlistedNoRoot(g, order, v);
      WalkBack(g, u, [v]);
      var p := UnlistedIsCutOff(g, order, [u] + [v]);
      CutOffHas(g, p);
    }
    if c :| RootFreeCycle(g, c) {
      CutOffWalkUnlisted(g, order, c);
    }
    if u, v :| StrandedArc(g, u, v) {
      ArcEnds(g, u, v);
      CutOffWalkUnlisted(g, order, [u, v]);
    }
  }

  lemma CutOffWalkUnlisted(g: Graph, order: seq<string>, p: seq<string>)
    requires LeastFirst(g, order) && CutOff(g, p) && |p| > 1
    ensures UnlistedArc(g, order, p[0], p[1])
  {
    forall pos, i | 0 <= pos < |order| && 0 <= i < |p|
      ensures order[pos] != p[i]
    {
      CutOffUnlisted(g, order, p, pos, i);
    }
    assert HasArc(g.arcs, p[1 - 1], p[1]);
  }

  /**
   * Exactly when the check reports an illegal cycle: when some cycle meets no root, and also, with no
   * cycle anywhere, when an edge joins two nodes that are no roots and nothing enters the first.
   */
  lemma IllegalCycleIff(nodes: seq<Node>, edges: seq<Edge>, order: seq<string>)
    requires IsOrder(GraphOf(nodes, edges), order)
    ensures var g := GraphOf(nodes, edges);
            (exists ids :: IllegalCycle(ids) in IssuesOf(nodes, edges, order)) <==>
            (exists c :: RootFreeCycle(g, c)) || (exists u, v :: StrandedArc(g, u, v))
  {
    var g := GraphOf(nodes, edges);
    var executable := ExecutableNodes(nodes);
    var stuck := Stuck(g.arcs, IdList(executable), Elements(order));
    GraphIsProper(nodes, edges);
    UnlistedArcIff(g, order);
    IdListHolds(executable);
    CycleReported(nodes, edges, order);
    if stuck != [] {
      var v := stuck[0];
      StuckIs(g.arcs, IdList(executable), Elements(order), v);
      StuckArc(g, order, v);
      var u :| HasArc(g.arcs, u, v) && u !in order;
      assert UnlistedArc(g, order, u, v);
    }
    if u, v :| UnlistedArc(g, order, u, v) {
      ArcEnds(g, u, v);
      StuckArc(g, order, v);
      StuckIs(g.arcs, IdList(executable), Elements(order), v);
    }
  }

  lemma {:induction false} DisconnectedIssuesAre(nodes: seq<Node>, done: set<string>, issue: GraphIssue)
    ensures issue in DisconnectedIssues(nodes, done) <==>
            issue.DisconnectedNode? && issue.id !in done
            && exists i :: 0 <= i < |nodes| && nodes[i].id == issue.id && nodes[i].displayName == issue.displayName
  {
    if nodes != [] {
      var front, last := nodes[..|nodes| - 1], nodes[|nodes| - 1];
      DisconnectedIssuesAre(front, done, issue);
      assert nodes == front + [last];
      assert forall i :: 0 <= i < |front| ==> nodes[i] == front[i];
    }
  }

  lemma CycleReported(nodes: seq<Node>, edges: seq<Edge>, order: seq<string>)
    ensures var stuck := Stuck(GraphOf(nodes, edges).arcs, IdList(ExecutableNodes(nodes)), Elements(order));
            (exists ids :: IllegalCycle(ids) in IssuesOf(nodes, edges, order)) <==> stuck != []
  {
    var stuck := Stuck(GraphOf(nodes, edges).arcs, IdList(ExecutableNodes(nodes)), Elements(order));
    forall ids
      ensures IllegalCycle(ids) in IssuesOf(nodes, edges, order) <==> stuck != [] && ids == stuck
    {
      DisconnectedIssuesAre(ExecutableNodes(nodes), Elements(order), IllegalCycle(ids));
    }
    assert stuck != [] ==> IllegalCycle(stuck) in IssuesOf(nodes, edges, order);
  }

  /** A closed walk of any nodes. */
  ghost predicate ClosedWalk(g: Graph, p: seq<string>) {
    |p| > 1 && p[0] == p[|p| - 1] && forall i :: 0 < i < |p| ==> HasArc(g.arcs, p[i - 1], p[i])
  }

  /** Without a trigger every closed walk avoids the roots: nothing enters a root. */
  lemma ClosedWalkAvoidsRoots(nodes: seq<Node>, edges: seq<Edge>, c: seq<string>)
    requires TriggerIds(ExecutableNodes(nodes)) == [] && ClosedWalk(GraphOf(nodes, edges), c)
    ensures RootFreeCycle(GraphOf(nodes, edges), c)
  {
    var g := GraphOf(nodes, edges);
    GraphIsProper(nodes, edges);
    forall i | 0 <= i < |c|
      ensures c[i] in g.ids && c[i] !in g.roots
    {
      var j := if i == 0 then |c| - 1 else i;
      ArcEnds(g, c[j - 1], c[j]);
    }
  }

  /** Without a trigger a cycle is reported exactly when there is one. */
  lemma NoTriggerCycleIff(nodes: seq<Node>, edges: seq<Edge>, order: seq<string>)
    requires IsOrder(GraphOf(nodes, edges), order) && TriggerIds(ExecutableNodes(nodes)) == []
    ensures (exists ids :: IllegalCycle(ids) in IssuesOf(nodes, edges, order)) <==>
            exists c :: ClosedWalk(GraphOf(nodes, edges), c)
  {
    IllegalCycleIff(nodes, edges, order);
    var g := GraphOf(nodes, edges);
    GraphIsProper(nodes, edges);
    if u, v :| StrandedArc(g, u, v) {
      ArcEnds(g, u, v);
      assert false;
    }
    if c :| RootFreeCycle(g, c) {
      assert ClosedWalk(g, c);
    }
    if c :| ClosedWalk(g, c) {
      ClosedWalkAvoidsRoots(nodes, edges, c);
    }
  }

  /** An acyclic workflow for which a cycle is reported: an edge between two steps the trigger does not reach. */
  lemma AcyclicReported(order: seq<string>)
    requires IsOrder(GraphOf(StrandedNodes(), StrandedEdges()), order)
    ensures exists ids :: IllegalCycle(ids) in IssuesOf(StrandedNodes(), StrandedEdges(), order)
    ensures !exists c :: RootFreeCycle(GraphOf(StrandedNodes(), StrandedEdges()), c)
  {
    var g := GraphOf(StrandedNodes(), StrandedEdges());
    StrandedGraph();
    assert g.arcs[0] == Arc("a", "b");
    assert StrandedArc(g, "a", "b");
    IllegalCycleIff(StrandedNodes(), StrandedEdges(), order);
    forall c: seq<string> | RootFreeWalk(g, c) && |c| > 1
      ensures c[0] == "a" && c[|c| - 1] == "b"
    {
      assert HasArc(g.arcs, c[1 - 1], c[1]) && HasArc(g.arcs, c[|c| - 1 - 1], c[|c| - 1]);
    }
  }

  function StrandedNodes(): seq<Node> {
    [Node("t", "trigger", "Start", false), Node("a", "action", "First", false), Node("b", "action", "Second", false)]
  }

  function StrandedEdges(): seq<Edge> {
    [Edge(None, "control", "a", "b")]
  }

  lemma StrandedTriggers()
    ensures ExecutableNodes(StrandedNodes()) == StrandedNodes()
    ensures TriggerIds(StrandedNodes()) == ["t"]
  {
    var nodes := StrandedNodes();
    assert nodes[..2] == [nodes[0], nodes[1]] && nodes[..2][..1] == [nodes[0]] && [nodes[0]][..0] == [];
    assert ExecutableNodes([nodes[0]]) == [nodes[0]];
    assert ExecutableNodes(nodes[..2]) == nodes[..2];
    assert TriggerIds([nodes[0]]) == ["t"];
    assert TriggerIds(nodes[..2]) == ["t"];
  }

  lemma StrandedGraph()
    ensures GraphOf(StrandedNodes(), StrandedEdges()) == Graph({"t", "a", "b"}, {"t"}, [Arc("a", "b")])
  {
    var nodes, edges := StrandedNodes(), StrandedEdges();
    StrandedTriggers();
    assert NodeIds(nodes) == {nodes[0].id, nodes[1].id, nodes[2].id};
    assert edges[..0] == [];
    assert ArcsOf(NodeIds(nodes), edges) == [Arc("a", "b")];
  }

  // ----- The graph and the report, read off the workflow -----

  /** A node that is compiled. */
  ghost predicate Runs(node: Node) {
    node.nodeType != "note" && node.nodeType != "group" && !node.disabled
  }

  /** An edge of the control flow; its newer type field is preferred. */
  ghost predicate Flows(edge: Edge) {
    var t := match edge.edgeType case Some(newer) => newer case None => edge.plainType;
    || t == "control" || t == "control_flow" || t == "approval" || t == "approval_flow"
    || t == "error" || t == "error_flow" || t == "loop" || t == "loop_flow"
  }

  ghost predicate IsNode(nodes: seq<Node>, id: string) {
    exists i :: 0 <= i < |nodes| && Runs(nodes[i]) && nodes[i].id == id
  }

  ghost predicate IsTrigger(nodes: seq<Node>, id: string) {
    exists i :: 0 <= i < |nodes| && Runs(nodes[i]) && nodes[i].nodeType == "trigger" && nodes[i].id == id
  }

  /** A control flow edge between two nodes that are compiled is an arc. */
  ghost function EdgeGives(nodes: seq<Node>): (Edge, Arc) -> bool {
    (e: Edge, a: Arc) =>
      Flows(e) && IsNode(nodes, e.source) && IsNode(nodes, e.target) && a == Arc(e.source, e.target)
  }

  /** A control flow edge that lacks one of its ends is skipped with a warning about its source. */
  ghost function SkipGives(nodes: seq<Node>): (Edge, string) -> bool {
    (e: Edge, source: string) =>
      Flows(e) && !(IsNode(nodes, e.source) && IsNode(nodes, e.target)) && source == e.source
  }

  ghost function TriggerGives(): (Node, string) -> bool {
    (n: Node, id: string) => Runs(n) && n.nodeType == "trigger" && id == n.id
  }

  ghost function UnlistedGives(order: seq<string>): (Node, GraphIssue) -> bool {
    (n: Node, issue: GraphIssue) => Runs(n) && n.id !in order && issue == DisconnectedNode(n.id, n.displayName)
  }

  /** What a report lists: triggers first, then unlisted nodes in order, then the stuck nodes together. */
  ghost predicate ReportsIssues(nodes: seq<Node>, edges: seq<Edge>, order: seq<string>, issues: seq<GraphIssue>) {
    exists triggers, disconnected, stuck ::
      && Picks(nodes, triggers, TriggerGives()) && Picks(nodes, disconnected, UnlistedGives(order))
      && IsStuck(nodes, edges, order, stuck)
      && issues == (if triggers == [] then [TriggerRequired] else if |triggers| > 1 then [MultipleTriggers] else [])
                   + disconnected + (if stuck == [] then [] else [IllegalCycle(stuck)])
  }

  /** The unlisted nodes that an edge from another unlisted node enters, each once. */
  ghost predicate IsStuck(nodes: seq<Node>, edges: seq<Edge>, order: seq<string>, stuck: seq<string>) {
    && Distinct(stuck)
    && forall v :: v in stuck <==>
         IsNode(nodes, v) && v !in order && exists u :: HasArc(GraphOf(nodes, edges).arcs, u, v) && u !in order
  }

  lemma RunsIff(node: Node)
    ensures Executable(node) <==> Runs(node)
  {
  }

  lemma FlowsIff(edge: Edge)
    ensures RuntimeEdge(edge) <==> Flows(edge)
  {
  }

  lemma {:induction false} NodesExact(nodes: seq<Node>, id: string)
    ensures id in NodeIds(ExecutableNodes(nodes)) <==> IsNode(nodes, id)
  {
    if nodes != [] {
      var front, last := nodes[..|nodes| - 1], nodes[|nodes| - 1];
      NodesExact(front, id);
      RunsIff(last);
      NodeIdsSnoc(ExecutableNodes(front), last);
      assert IsNode(nodes, id) <==> IsNode(front, id) || (Runs(last) && last.id == id) by {
        assert nodes == front + [last];
        assert forall i :: 0 <= i < |front| ==> nodes[i] == front[i];
      }
      assert ExecutableNodes(front) + [] == ExecutableNodes(front);
    }
  }

  lemma NodeIdsSnoc(nodes: seq<Node>, last: Node)
    ensures NodeIds(nodes + [last]) == NodeIds(nodes) + {last.id}
  {
    var longer := nodes + [last];
    assert forall i :: 0 <= i < |nodes| ==> longer[i] == nodes[i];
    assert longer[|nodes|] == last;
    assert forall id :: id in NodeIds(nodes) ==> id in NodeIds(longer);
  }

  lemma {:induction false} TriggersPicked(nodes: seq<Node>)
    ensures Picks(nodes, TriggerIds(ExecutableNodes(nodes)), TriggerGives())
  {
    if nodes != [] {
      var front, last := nodes[..|nodes| - 1], nodes[|nodes| - 1];
      var executable := ExecutableNodes(front);
      TriggersPicked(front);
      RunsIff(last);
      var more := if Executable(last) && last.nodeType == "trigger" then [last.id] else [];
      assert (executable + [last])[..|executable|] == executable;
      assert executable + [] == executable;
      assert TriggerIds(executable) + [] == TriggerIds(executable);
      assert TriggerIds(ExecutableNodes(nodes)) == TriggerIds(executable) + more;
      assert forall id :: TriggerGives()(last, id) <==> id in more;
      PicksLast(nodes, last, TriggerIds(executable), TriggerGives(), more);
    }
  }

  lemma {:induction false} DisconnectedPicked(nodes: seq<Node>, order: seq<string>)
    ensures Picks(nodes, DisconnectedIssues(ExecutableNodes(nodes), Elements(order)), UnlistedGives(order))
  {
    if nodes != [] {
      var front, last := nodes[..|nodes| - 1], nodes[|nodes| - 1];
      var executable := ExecutableNodes(front);
      var before := DisconnectedIssues(executable, Elements(order));
      DisconnectedPicked(front, order);
      RunsIff(last);
      var more := if Executable(last) && last.id !in order then [DisconnectedNode(last.id, last.displayName)] else [];
      assert (executable + [last])[..|executable|] == executable;
      assert executable + [] == executable && before + [] == before;
      assert DisconnectedIssues(ExecutableNodes(nodes), Elements(order)) == before + more;
      assert forall issue :: UnlistedGives(order)(last, issue) <==> issue in more;
      PicksLast(nodes, last, before, UnlistedGives(order), more);
    }
  }

  lemma ConnectsIff(nodes: seq<Node>, edge: Edge)
    ensures Connects(NodeIds(ExecutableNodes(nodes)), edge) <==>
            Flows(edge) && IsNode(nodes, edge.source) && IsNode(nodes, edge.target)
  {
    FlowsIff(edge);
    NodesExact(nodes, edge.source);
    NodesExact(nodes, edge.target);
  }

  lemma {:induction false} ArcsPicked(nodes: seq<Node>, edges: seq<Edge>)
    ensures Picks(edges, ArcsOf(NodeIds(ExecutableNodes(nodes)), edges), EdgeGives(nodes))
    ensures Picks(edges, SkippedEdges(NodeIds(ExecutableNodes(nodes)), edges), SkipGives(nodes))
  {
    if edges != [] {
      var ids, front, last := NodeIds(ExecutableNodes(nodes)), edges[..|edges| - 1], edges[|edges| - 1];
      ArcsPicked(nodes, front);
      ConnectsIff(nodes, last);
      FlowsIff(last);
      var arcs := if Connects(ids, last) then [Arc(last.source, last.target)] else [];
      var skipped := if RuntimeEdge(last) && !Connects(ids, last) then [last.source] else [];
      assert forall a :: EdgeGives(nodes)(last, a) <==> a in arcs;
      assert forall t :: SkipGives(nodes)(last, t) <==> t in skipped;
      PicksLast(edges, last, ArcsOf(ids, front), EdgeGives(nodes), arcs);
      PicksLast(edges, last, SkippedEdges(ids, front), SkipGives(nodes), skipped);
    }
  }

  lemma TriggersExact(nodes: seq<Node>, id: string)
    ensures id in TriggerIds(ExecutableNodes(nodes)) <==> IsTrigger(nodes, id)
  {
    TriggersPicked(nodes);
    PicksExactly(nodes, TriggerIds(ExecutableNodes(nodes)), TriggerGives(), id);
    if i :| 0 <= i < |nodes| && Runs(nodes[i]) && nodes[i].nodeType == "trigger" && nodes[i].id == id {
      assert TriggerGives()(nodes[i], id);
    }
  }

  /** The graph of a workflow, read off its nodes and edges. */
  lemma GraphExact(nodes: seq<Node>, edges: seq<Edge>)
    ensures var g := GraphOf(nodes, edges);
            && (forall id :: id in g.ids <==> IsNode(nodes, id))
            && Picks(edges, g.arcs, EdgeGives(nodes))
            && forall id :: id in g.roots <==>
                 if exists t :: IsTrigger(nodes, t) then IsTrigger(nodes, id)
                 else IsNode(nodes, id) && forall u :: !HasArc(g.arcs, u, id)
  {
    var g := GraphOf(nodes, edges);
    ArcsPicked(nodes, edges);
    forall id
      ensures id in g.ids <==> IsNode(nodes, id)
      ensures id in TriggerIds(ExecutableNodes(nodes)) <==> IsTrigger(nodes, id)
      ensures Entered(g.arcs, id) <==> exists u :: HasArc(g.arcs, u, id)
    {
      NodesExact(nodes, id);
      TriggersExact(nodes, id);
      EnteredIff(g.arcs, id);
    }
    var triggers := TriggerIds(ExecutableNodes(nodes));
    assert triggers != [] ==> triggers[0] in triggers;
  }

  lemma EnteredIff(arcs: seq<Arc>, v: string)
    ensures Entered(arcs, v) <==> exists u :: HasArc(arcs, u, v)
  {
    if k :| 0 <= k < |arcs| && arcs[k].target == v {
      assert arcs[k] == Arc(arcs[k].source, v);
      assert HasArc(arcs, arcs[k].source, v);
    }
  }

  lemma {:induction false} StuckDistinct(arcs: seq<Arc>, ids: seq<string>, done: set<string>)
    requires Distinct(ids)
    ensures Distinct(Stuck(arcs, ids, done))
  {
    if ids != [] {
      var front, last := ids[..|ids| - 1], ids[|ids| - 1];
      StuckDistinct(arcs, front, done);
      StuckIs(arcs, front, done, last);
    }
  }

  lemma {:induction false} IdListDistinct(nodes: seq<Node>)
    ensures Distinct(IdList(nodes))
  {
    if nodes != [] {
      IdListDistinct(nodes[..|nodes| - 1]);
    }
  }

  /** The issues of a report, read off the workflow and the order. */
  lemma IssuesExact(nodes: seq<Node>, edges: seq<Edge>, order: seq<string>)
    ensures ReportsIssues(nodes, edges, order, IssuesOf(nodes, edges, order))
  {
    var g, executable := GraphOf(nodes, edges), ExecutableNodes(nodes);
    var stuck := Stuck(g.arcs, IdList(executable), Elements(order));
    TriggersPicked(nodes);
    DisconnectedPicked(nodes, order);
    GraphIsProper(nodes, edges);
    IdListHolds(executable);
    IdListDistinct(executable);
    StuckDistinct(g.arcs, IdList(executable), Elements(order));
    forall v
      ensures v in stuck <==>
              IsNode(nodes, v) && v !in order && exists u :: HasArc(g.arcs, u, v) && u !in order
    {
      StuckIs(g.arcs, IdList(executable), Elements(order), v);
      NodesExact(nodes, v);
      StuckArc(g, order, v);
    }
    assert IsStuck(nodes, edges, order, stuck);
  }

  // ----- When nothing is reported -----

  lemma NoneDisconnected(nodes: seq<Node>, done: set<string>)
    ensures DisconnectedIssues(nodes, done) == [] <==> NodeIds(nodes) <= done
  {
    var issues := DisconnectedIssues(nodes, done);
    if issues != [] {
      DisconnectedIssuesAre(nodes, done, issues[0]);
    }
    forall i | 0 <= i < |nodes| && nodes[i].id !in done
      ensures issues != []
    {
      DisconnectedIssuesAre(nodes, done, DisconnectedNode(nodes[i].id, nodes[i].displayName));
    }
    assert forall i :: 0 <= i < |nodes| ==> nodes[i].id in NodeIds(nodes);
  }

  /**
   * A workflow passes without issues exactly when it has one trigger and no walk among its executable
   * nodes is cut off from it; then the order lists them all.
   */
  lemma NoIssuesIff(nodes: seq<Node>, edges: seq<Edge>, order: seq<string>)
    requires IsOrder(GraphOf(nodes, edges), order)
    ensures IssuesOf(nodes, edges, order) == [] <==>
            |TriggerIds(ExecutableNodes(nodes))| == 1 && !exists p :: CutOff(GraphOf(nodes, edges), p)
    ensures IssuesOf(nodes, edges, order) == [] ==> Elements(order) == GraphOf(nodes, edges).ids
  {
    var g, executable := GraphOf(nodes, edges), ExecutableNodes(nodes);
    var stuck := Stuck(g.arcs, IdList(executable), Elements(order));
    GraphIsProper(nodes, edges);
    NoneDisconnected(executable, Elements(order));
    IdListHolds(executable);
    AllListedIff(g, order);
    if stuck != [] {
      StuckIs(g.arcs, IdList(executable), Elements(order), stuck[0]);
    }
  }

  lemma AllListedIff(g: Graph, order: seq<string>)
    requires Proper(g) && IsOrder(g, order)
    ensures g.ids <= Elements(order) <==> !exists p :: CutOff(g, p)
    ensures Elements(order) <= g.ids
  {
    if p :| CutOff(g, p) {
      DisconnectedIff(g, order, p[|p| - 1]);
    }
    if v :| v in g.ids && v !in order {
      DisconnectedIff(g, order, v);
    }
    forall i | 0 <= i < |order|
      ensures order[i] in g.ids
    {
      assert IsNext(g, order, i);
    }
  }
}
