/** The bounded cone of dependencies around a set of seeds: what it contains, at which distance, with
    how much relevance, and whether anything was cut. */
module CausalCone {
  import opened Options
  import opened Names
  import opened Sorting

  type NodeId = string

  datatype EdgeType =
    | DependsOn | Contains | References | Causes | RelatedTo | Calls | DataFlow | Supports | Contradicts

  datatype NodeState = Stable | Working | Orphan

  datatype Node = Node(state: NodeState, trust: real)

  datatype Edge = Edge(source: NodeId, target: NodeId, weight: real, kind: EdgeType)

  /** The resident nodes, and the edges; an edge may lead to a node that is not resident. */
  datatype Graph = Graph(nodes: map<NodeId, Node>, edges: seq<Edge>)

  /** Per source its dependencies with weights, and per target its callers, sorted by id. */
  datatype Adjacency = Adjacency(fwd: map<NodeId, seq<(NodeId, real)>>, rev: map<NodeId, seq<NodeId>>)

  predicate IsDependencyEdge(t: EdgeType)
  {
    t.DependsOn? || t.Contains? || t.References? || t.Causes? || t.Calls? || t.DataFlow?
  }

  predicate Dead(g: Graph, id: NodeId)
  {
    id in g.nodes && g.nodes[id].state.Orphan?
  }

  function ChildrenOf(adj: Adjacency, id: NodeId): seq<(NodeId, real)>
  {
    if id in adj.fwd then adj.fwd[id] else []
  }

  function CallersOf(adj: Adjacency, id: NodeId): seq<NodeId>
  {
    if id in adj.rev then adj.rev[id] else []
  }

  // ----- the adjacency index -----

  predicate UpTo(a: NodeId, b: NodeId)
  {
    a == b || Before(a, b)
  }

  function OutEdges(edges: seq<Edge>, id: NodeId): seq<(NodeId, real)>
  {
    if edges == [] then []
    else
      var e := edges[|edges| - 1];
      OutEdges(edges[..|edges| - 1], id)
      + if IsDependencyEdge(e.kind) && e.source == id then [(e.target, e.weight)] else []
  }

  /** Belief edges and mere relation are not followed; every other kind is. */
  lemma KindsFollowed(t: EdgeType)
    ensures IsDependencyEdge(t) <==> t != RelatedTo && t != Supports && t != Contradicts
  {
  }

  function InEdges(edges: seq<Edge>, id: NodeId): seq<NodeId>
  {
    if edges == [] then []
    else
      var e := edges[|edges| - 1];
      InEdges(edges[..|edges| - 1], id) + if IsDependencyEdge(e.kind) && e.target == id then [e.source] else []
  }

  /** A dependency edge between two nodes, of one weight or of any. */
  predicate IsEdge(e: Edge, source: NodeId, target: NodeId, weight: Option<real>)
  {
    && IsDependencyEdge(e.kind) && e.source == source && e.target == target
    && (weight.None? || e.weight == weight.value)
  }

  /** The positions of the dependency edges between two nodes, of one weight or of any. */
  function EdgesAt(edges: seq<Edge>, source: NodeId, target: NodeId, weight: Option<real>): set<nat>
  {
    set i: nat | i < |edges| && IsEdge(edges[i], source, target, weight)
  }

  lemma EdgesAtLast(edges: seq<Edge>, source: NodeId, target: NodeId, weight: Option<real>)
    requires edges != []
    ensures var n := |edges| - 1;
            |EdgesAt(edges, source, target, weight)|
            == |EdgesAt(edges[..n], source, target, weight)|
               + if IsEdge(edges[n], source, target, weight) then 1 else 0
  {
    hide IsEdge;
    var n := |edges| - 1;
    var before := EdgesAt(edges[..n], source, target, weight);
    assert EdgesAt(edges, source, target, weight)
        == before + if IsEdge(edges[n], source, target, weight) then {n} else {};
  }

  /** Each dependency edge counts once under its source, with target and weight. */
  lemma {:induction false} OutEdgesCount(edges: seq<Edge>, id: NodeId, t: NodeId, w: real)
    ensures multiset(OutEdges(edges, id))[(t, w)] == |EdgesAt(edges, id, t, Some(w))|
  {
    hide EdgesAt;
    if edges == [] {
      NoEdgesAt(id, t, Some(w));
    } else {
      var n := |edges| - 1;
      OutEdgesCount(edges[..n], id, t, w);
      EdgesAtLast(edges, id, t, Some(w));
    }
  }

  /** And once under its target, with its source. */
  lemma {:induction false} InEdgesCount(edges: seq<Edge>, id: NodeId, source: NodeId)
    ensures multiset(InEdges(edges, id))[source] == |EdgesAt(edges, source, id, None)|
  {
    hide EdgesAt;
    if edges == [] {
      NoEdgesAt(source, id, None);
    } else {
      var n := |edges| - 1;
      InEdgesCount(edges[..n], id, source);
      EdgesAtLast(edges, source, id, None);
    }
  }

  lemma NoEdgesAt(source: NodeId, target: NodeId, weight: Option<real>)
    ensures EdgesAt([], source, target, weight) == {}
  {
  }

  /** The index holds exactly the dependency edges, repeats included. */
  ghost predicate Indexes(adj: Adjacency, edges: seq<Edge>)
  {
    forall id :: multiset(ChildrenOf(adj, id)) == multiset(OutEdges(edges, id))
                 && multiset(CallersOf(adj, id)) == multiset(InEdges(edges, id))
  }

  predicate ByTarget(a: (NodeId, real), b: (NodeId, real))
  {
    UpTo(a.0, b.0)
  }

  function SortLists(adj: Adjacency): Adjacency
  {
    Adjacency(map id | id in adj.fwd :: SortBy(adj.fwd[id], ByTarget),
              map id | id in adj.rev :: SortBy(adj.rev[id], UpTo))
  }

  ghost predicate Pushed(adj: Adjacency, edges: seq<Edge>)
  {
    && (forall id :: ChildrenOf(adj, id) == OutEdges(edges, id))
    && (forall id :: CallersOf(adj, id) == InEdges(edges, id))
  }

  function Push(adj: Adjacency, e: Edge): Adjacency
  {
    adj.(fwd := adj.fwd[e.source := ChildrenOf(adj, e.source) + [(e.target, e.weight)]],
         rev := adj.rev[e.target := CallersOf(adj, e.target) + [e.source]])
  }

  method CausalAdjacency(g: Graph) returns (adj: Adjacency)
    ensures Indexes(adj, g.edges)
  {
    hide Indexes, Pushed, SortBy, OutEdges, InEdges;
    adj := Adjacency(map[], map[]);
    NothingPushed(g.edges);
    for i := 0 to |g.edges|
      invariant Pushed(adj, g.edges[..i])
    {
      var e := g.edges[i];
      PushOne(adj, g.edges, i);
      if !IsDependencyEdge(e.kind) {
        continue;
      }
      adj := Push(adj, e);
    }
    assert g.edges[..|g.edges|] == g.edges;
    SortedIndexes(adj, g.edges);
    adj := SortLists(adj);
  }

  lemma NothingPushed(edges: seq<Edge>)
    ensures Pushed(Adjacency(map[], map[]), edges[..0])
  {
  }

  lemma OneMoreEdge(edges: seq<Edge>, i: nat, id: NodeId)
    requires i < |edges|
    ensures var e := edges[i];
            && OutEdges(edges[..i + 1], id)
               == (if IsDependencyEdge(e.kind) && e.source == id
                   then OutEdges(edges[..i], id) + [(e.target, e.weight)] else OutEdges(edges[..i], id))
            && InEdges(edges[..i + 1], id)
               == (if IsDependencyEdge(e.kind) && e.target == id
                   then InEdges(edges[..i], id) + [e.source] else InEdges(edges[..i], id))
  {
    assert edges[..i + 1][..i] == edges[..i];
  }

  lemma PushOne(adj: Adjacency, edges: seq<Edge>, i: nat)
    requires i < |edges| && Pushed(adj, edges[..i])
    ensures Pushed(if IsDependencyEdge(edges[i].kind) then Push(adj, edges[i]) else adj, edges[..i + 1])
  {
    hide OutEdges, InEdges;
    var e := edges[i];
    var next := if IsDependencyEdge(e.kind) then Push(adj, e) else adj;
    forall id
      ensures ChildrenOf(next, id) == OutEdges(edges[..i + 1], id) && CallersOf(next, id) == InEdges(edges[..i + 1], id)
    {
      OneMoreEdge(edges, i, id);
      assert ChildrenOf(adj, id) == OutEdges(edges[..i], id) && CallersOf(adj, id) == InEdges(edges[..i], id);
    }
  }

  lemma SortedIndexes(adj: Adjacency, edges: seq<Edge>)
    requires Pushed(adj, edges)
    ensures Indexes(SortLists(adj), edges)
  {
    hide SortBy, OutEdges, InEdges;
    forall id
      ensures multiset(ChildrenOf(SortLists(adj), id)) == multiset(OutEdges(edges, id))
      ensures multiset(CallersOf(SortLists(adj), id)) == multiset(InEdges(edges, id))
    {
      SortKeeps(ChildrenOf(adj, id), ByTarget);
      SortKeeps(CallersOf(adj, id), UpTo);
      assert ChildrenOf(adj, id) == OutEdges(edges, id) && CallersOf(adj, id) == InEdges(edges, id);
    }
  }

  // ----- distance -----

  function Live(g: Graph, children: seq<(NodeId, real)>): set<NodeId>
  {
    set c | c in children && !Dead(g, c.0) :: c.0
  }

  lemma LiveStep(g: Graph, children: seq<(NodeId, real)>, i: nat)
    requires i < |children|
    ensures Live(g, children[..i + 1]) == Live(g, children[..i])
            + if Dead(g, children[i].0) then {} else {children[i].0}
    ensures Live(g, children[..0]) == {}
  {
    hide Dead;
    assert forall c :: c in children[..i + 1] <==> c in children[..i] || c == children[i];
  }

  /** The dependencies of a node that are not dead. */
  function Targets(g: Graph, adj: Adjacency, id: NodeId): set<NodeId>
  {
    Live(g, ChildrenOf(adj, id))
  }

  function TargetsOf(g: Graph, adj: Adjacency, ids: set<NodeId>): set<NodeId>
  {
    set id, v | id in ids && v in Targets(g, adj, id) :: v
  }

  /** The nodes within `k` dependency steps of the seeds. */
  function Ball(g: Graph, adj: Adjacency, seeds: set<NodeId>, k: nat): set<NodeId>
  {
    if k == 0 then seeds
    else Ball(g, adj, seeds, k - 1) + TargetsOf(g, adj, Ball(g, adj, seeds, k - 1))
  }

  /** The nodes at distance exactly `k`. */
  function Layer(g: Graph, adj: Adjacency, seeds: set<NodeId>, k: nat): set<NodeId>
  {
    if k == 0 then seeds else Ball(g, adj, seeds, k) - Ball(g, adj, seeds, k - 1)
  }

  ghost predicate IsPath(g: Graph, adj: Adjacency, p: seq<NodeId>)
  {
    p != [] && forall i | 0 < i < |p| :: p[i] in Targets(g, adj, p[i - 1])
  }

  /** A path of at most `k` dependency steps from some seed to `v`. */
  ghost predicate ReachedBy(g: Graph, adj: Adjacency, seeds: set<NodeId>, k: nat, v: NodeId, p: seq<NodeId>)
  {
    IsPath(g, adj, p) && p[0] in seeds && p[|p| - 1] == v && |p| <= k + 1
  }

  /** The layers are what the name says: a node is within `k` steps exactly when some path of at most
      `k` dependency edges leads to it from a seed. */
  lemma {:induction false} BallIsReach(g: Graph, adj: Adjacency, seeds: set<NodeId>, k: nat, v: NodeId)
    ensures v in Ball(g, adj, seeds, k) <==> exists p :: ReachedBy(g, adj, seeds, k, v, p)
  {
    hide Targets;
    if v in Ball(g, adj, seeds, k) {
      var p := PathTo(g, adj, seeds, k, v);
    }
    forall p | ReachedBy(g, adj, seeds, k, v, p)
      ensures v in Ball(g, adj, seeds, k)
    {
      PathStaysInBall(g, adj, seeds, k, p);
    }
  }

  lemma {:induction false} PathTo(g: Graph, adj: Adjacency, seeds: set<NodeId>, k: nat, v: NodeId)
    returns (p: seq<NodeId>)
    requires v in Ball(g, adj, seeds, k)
    ensures ReachedBy(g, adj, seeds, k, v, p)
  {
    hide Targets;
    if v in seeds {
      p := [v];
    } else if v in Ball(g, adj, seeds, k - 1) {
      p := PathTo(g, adj, seeds, k - 1, v);
    } else {
      var u :| u in Ball(g, adj, seeds, k - 1) && v in Targets(g, adj, u);
      p := PathTo(g, adj, seeds, k - 1, u);
      p := p + [v];
    }
  }

  lemma {:induction false} PathStaysInBall(g: Graph, adj: Adjacency, seeds: set<NodeId>, k: nat, p: seq<NodeId>)
    requires IsPath(g, adj, p) && p[0] in seeds && |p| <= k + 1
    ensures p[|p| - 1] in Ball(g, adj, seeds, k)
    decreases |p|
  {
    hide Targets;
    var n := |p| - 1;
    if n == 0 {
      BallGrows(g, adj, seeds, 0, k);
    } else {
      PathStaysInBall(g, adj, seeds, k - 1, p[..n]);
      assert p[n] in Targets(g, adj, p[n - 1]);
    }
  }

  lemma {:induction false} BallGrows(g: Graph, adj: Adjacency, seeds: set<NodeId>, j: nat, k: nat)
    requires j <= k
    ensures Ball(g, adj, seeds, j) <= Ball(g, adj, seeds, k)
    decreases k - j
  {
    hide TargetsOf;
    if j < k {
      BallGrows(g, adj, seeds, j, k - 1);
    }
  }

  /** Only the outermost layer can reach anything new. */
  lemma BallFromLayer(g: Graph, adj: Adjacency, seeds: set<NodeId>, k: nat)
    ensures Ball(g, adj, seeds, k + 1) == Ball(g, adj, seeds, k) + TargetsOf(g, adj, Layer(g, adj, seeds, k))
  {
    hide Targets;
    if k > 0 {
      var inner, outer := Ball(g, adj, seeds, k - 1), Layer(g, adj, seeds, k);
      assert Ball(g, adj, seeds, k) == inner + outer;
      assert TargetsOf(g, adj, inner + outer) == TargetsOf(g, adj, inner) + TargetsOf(g, adj, outer);
    }
  }

  // ----- relevance -----

  function At(rel: map<NodeId, real>, id: NodeId): real
  {
    if id in rel then rel[id] else 0.0
  }

  function Times(x: real, y: real): real
  {
    x * y
  }

  function RelaxChildren(g: Graph, mass: real, children: seq<(NodeId, real)>,
                         rel: map<NodeId, real>): map<NodeId, real>
  {
    if children == [] then rel
    else
      var n := |children| - 1;
      var r := RelaxChildren(g, mass, children[..n], rel);
      var (child, w) := children[n];
      if Dead(g, child) then r else r[child := At(r, child) + Times(mass, w)]
  }

  function RelaxAll(g: Graph, adj: Adjacency, decay: real, parents: seq<NodeId>,
                    rel: map<NodeId, real>): map<NodeId, real>
  {
    if parents == [] then rel
    else
      var n := |parents| - 1;
      var r := RelaxAll(g, adj, decay, parents[..n], rel);
      RelaxChildren(g, Times(At(r, parents[n]), decay), ChildrenOf(adj, parents[n]), r)
  }

  function Ones(seeds: set<NodeId>): map<NodeId, real>
  {
    map s | s in seeds :: 1.0
  }

  /** The relevance after `k` layers, as accumulated in place over sorted frontiers. */
  function Relevance(g: Graph, adj: Adjacency, seeds: set<NodeId>, decay: real, k: nat): map<NodeId, real>
  {
    if k == 0 then Ones(seeds)
    else RelaxAll(g, adj, decay, Sorted(Layer(g, adj, seeds, k - 1)), Relevance(g, adj, seeds, decay, k - 1))
  }

  lemma {:induction false} RelaxChildrenKeys(g: Graph, mass: real, children: seq<(NodeId, real)>,
                                             rel: map<NodeId, real>)
    ensures RelaxChildren(g, mass, children, rel).Keys == rel.Keys + Live(g, children)
  {
    hide Dead, Live;
    if children != [] {
      var n := |children| - 1;
      RelaxChildrenKeys(g, mass, children[..n], rel);
      LiveStep(g, children, n);
      assert children[..n + 1] == children;
    } else {
      NoneLive(g);
    }
  }

  lemma NoneLive(g: Graph)
    ensures Live(g, []) == {}
  {
  }

  lemma RelaxChildrenStep(g: Graph, mass: real, children: seq<(NodeId, real)>, rel: map<NodeId, real>, i: nat)
    requires i < |children|
    ensures var r := RelaxChildren(g, mass, children[..i], rel);
            var (child, w) := children[i];
            RelaxChildren(g, mass, children[..i + 1], rel)
            == if Dead(g, child) then r else r[child := At(r, child) + Times(mass, w)]
    ensures RelaxChildren(g, mass, children[..0], rel) == rel
  {
    hide Dead, Times;
    assert children[..i + 1][..i] == children[..i];
  }

  lemma RelaxAllStep(g: Graph, adj: Adjacency, decay: real, parents: seq<NodeId>, rel: map<NodeId, real>, i: nat)
    requires i < |parents|
    ensures var r := RelaxAll(g, adj, decay, parents[..i], rel);
            RelaxAll(g, adj, decay, parents[..i + 1], rel)
            == RelaxChildren(g, Times(At(r, parents[i]), decay), ChildrenOf(adj, parents[i]), r)
  {
    hide RelaxChildren, Times;
    assert parents[..i + 1][..i] == parents[..i] && parents[..i + 1][i] == parents[i];
  }

  // ----- the traversal -----

  /** Process one parent: accumulate on every child that is not dead, and discover the new ones. */
  method Expand(g: Graph, adj: Adjacency, decay: real, parent: NodeId, d: nat,
                depth: map<NodeId, nat>, relevance: map<NodeId, real>, next: set<NodeId>)
    returns (depth': map<NodeId, nat>, relevance': map<NodeId, real>, next': set<NodeId>)
    requires parent in relevance
    ensures relevance' == RelaxChildren(g, Times(relevance[parent], decay), ChildrenOf(adj, parent), relevance)
    ensures next' == next + (Targets(g, adj, parent) - depth.Keys)
    ensures depth'.Keys == depth.Keys + Targets(g, adj, parent)
    ensures forall v | v in depth' :: depth'[v] == if v in depth then depth[v] else d
  {
    hide Dead, Live, RelaxChildren, Times;
    var mass := Times(relevance[parent], decay);
    var children := ChildrenOf(adj, parent);
    depth', relevance', next' := depth, relevance, next;
    NoneLive(g);
    RelaxNoChildren(g, mass, relevance);
    for i := 0 to |children|
      invariant relevance' == RelaxChildren(g, mass, children[..i], relevance)
      invariant depth'.Keys == depth.Keys + Live(g, children[..i])
      invariant next' == next + (depth'.Keys - depth.Keys)
      invariant forall v | v in depth' :: depth'[v] == if v in depth then depth[v] else d
    {
      var (child, w) := children[i];
      LiveStep(g, children, i);
      RelaxChildrenStep(g, mass, children, relevance, i);
      if Dead(g, child) {
        continue;
      }
      relevance' := relevance'[child := At(relevance', child) + Times(mass, w)];
      if child !in depth' {
        depth' := depth'[child := d];
        next' := next' + {child};
      }
    }
    assert children[..|children|] == children;
  }

  lemma RelaxNoChildren(g: Graph, mass: real, rel: map<NodeId, real>)
    ensures RelaxChildren(g, mass, [], rel) == rel
  {
  }

  /** What the traversal knows after layer `k`. */
  ghost predicate Explored(g: Graph, adj: Adjacency, seeds: set<NodeId>, decay: real, k: nat,
                           depth: map<NodeId, nat>, relevance: map<NodeId, real>)
  {
    && depth.Keys == Ball(g, adj, seeds, k) == relevance.Keys
    && (forall v | v in depth :: depth[v] <= k && v in Layer(g, adj, seeds, depth[v]))
    && relevance == Relevance(g, adj, seeds, decay, k)
  }

  function Members(s: seq<NodeId>): set<NodeId>
  {
    set x | x in s
  }

  method ExpandLayer(g: Graph, adj: Adjacency, ghost seeds: set<NodeId>, decay: real, d: nat,
                     frontier: seq<NodeId>, depth: map<NodeId, nat>, relevance: map<NodeId, real>)
    returns (depth': map<NodeId, nat>, relevance': map<NodeId, real>, next: set<NodeId>)
    requires d > 0 && Explored(g, adj, seeds, decay, d - 1, depth, relevance)
    requires frontier == Sorted(Layer(g, adj, seeds, d - 1))
    ensures Explored(g, adj, seeds, decay, d, depth', relevance')
    ensures next == Layer(g, adj, seeds, d)
  {
    hide Ball, Layer, Targets, TargetsOf, Sorted, RelaxChildren, RelaxAll, Times;
    depth', relevance', next := depth, relevance, {};
    RelaxNothing(g, adj, decay, relevance);
    NoTargets(g, adj);
    ghost var known := depth.Keys;
    LayerInBall(g, adj, seeds, d - 1);
    for i := 0 to |frontier|
      invariant relevance' == RelaxAll(g, adj, decay, frontier[..i], relevance)
      invariant depth'.Keys == relevance'.Keys == known + TargetsOf(g, adj, Members(frontier[..i]))
      invariant next == depth'.Keys - known
      invariant forall v | v in depth' :: depth'[v] == if v in depth then depth[v] else d
    {
      assert frontier[i] in Layer(g, adj, seeds, d - 1);
      RelaxAllStep(g, adj, decay, frontier, relevance, i);
      assert Members(frontier[..i + 1]) == Members(frontier[..i]) + {frontier[i]};
      TargetsOfOneMore(g, adj, Members(frontier[..i]), frontier[i]);
      RelaxChildrenKeys(g, Times(relevance'[frontier[i]], decay), ChildrenOf(adj, frontier[i]), relevance');
      TargetsAre(g, adj, frontier[i]);
      depth', relevance', next := Expand(g, adj, decay, frontier[i], d, depth', relevance', next);
    }
    assert frontier[..|frontier|] == frontier;
    assert Members(frontier) == Layer(g, adj, seeds, d - 1);
    BallFromLayer(g, adj, seeds, d - 1);
    LayerIs(g, adj, seeds, d);
  }

  lemma TargetsAre(g: Graph, adj: Adjacency, id: NodeId)
    ensures Targets(g, adj, id) == Live(g, ChildrenOf(adj, id))
  {
  }

  lemma NoTargets(g: Graph, adj: Adjacency)
    ensures TargetsOf(g, adj, Members([])) == {}
  {
  }

  lemma TargetsOfOneMore(g: Graph, adj: Adjacency, ids: set<NodeId>, id: NodeId)
    ensures TargetsOf(g, adj, ids + {id}) == TargetsOf(g, adj, ids) + Targets(g, adj, id)
  {
    hide Targets;
  }

  lemma LayerInBall(g: Graph, adj: Adjacency, seeds: set<NodeId>, k: nat)
    ensures Layer(g, adj, seeds, k) <= Ball(g, adj, seeds, k)
  {
  }

  lemma LayerIs(g: Graph, adj: Adjacency, seeds: set<NodeId>, k: nat)
    requires k > 0
    ensures Layer(g, adj, seeds, k) == Ball(g, adj, seeds, k) - Ball(g, adj, seeds, k - 1)
  {
  }

  /** Once a layer is empty, nothing changes any more. */
  lemma {:induction false} Settled(g: Graph, adj: Adjacency, seeds: set<NodeId>, decay: real, j: nat, k: nat)
    requires j <= k && Layer(g, adj, seeds, j) == {}
    ensures Layer(g, adj, seeds, k) == {}
    ensures Ball(g, adj, seeds, k) == Ball(g, adj, seeds, j)
    ensures Relevance(g, adj, seeds, decay, k) == Relevance(g, adj, seeds, decay, j)
    decreases k - j
  {
    hide Ball, Targets, RelaxAll, Layer, Sorted;
    if j < k {
      Settled(g, adj, seeds, decay, j, k - 1);
      BallFromLayer(g, adj, seeds, k - 1);
      LayerIs(g, adj, seeds, k);
      SortedNothing();
      RelaxNothing(g, adj, decay, Relevance(g, adj, seeds, decay, k - 1));
    }
  }

  lemma SortedNothing()
    ensures Sorted({}) == []
  {
  }

  lemma RelaxNothing(g: Graph, adj: Adjacency, decay: real, rel: map<NodeId, real>)
    ensures RelaxAll(g, adj, decay, [], rel) == rel
  {
  }

  /** The layered search. Depth holds exactly the nodes within the horizon, each at its distance; the
      cut dependencies are the nodes one step past it, except that horizon 0 never looks for any. */
  method Traverse(g: Graph, adj: Adjacency, seeds: set<NodeId>, horizon: nat, decay: real)
    returns (depth: map<NodeId, nat>, relevance: map<NodeId, real>, cut: set<NodeId>)
    ensures Explored(g, adj, seeds, decay, horizon, depth, relevance)
    ensures cut == if horizon == 0 then {} else Layer(g, adj, seeds, horizon + 1)
    ensures cut == {} <==> horizon == 0 || Closed(g, adj, depth.Keys)
  {
    hide Ball, Targets, RelaxAll, Layer, Sorted, Explored, Closed;
    depth := map s | s in seeds :: 0;
    relevance := Ones(seeds);
    Start(g, adj, seeds, decay, depth, relevance);
    var frontier := Sorted(seeds);
    var d := 0;
    while d < horizon
      invariant d <= horizon
      invariant Explored(g, adj, seeds, decay, d, depth, relevance)
      invariant frontier == Sorted(Layer(g, adj, seeds, d))
    {
      var next;
      depth, relevance, next := ExpandLayer(g, adj, seeds, decay, d + 1, frontier, depth, relevance);
      frontier := Sorted(next);
      d := d + 1;
      if frontier == [] {
        break;
      }
    }
    ghost var done := d;
    SortedMembers(Layer(g, adj, seeds, done));
    if done < horizon {
      assert forall v :: v !in Layer(g, adj, seeds, done);
      Settled(g, adj, seeds, decay, done, horizon);
      ExploredSettles(g, adj, seeds, decay, done, horizon, depth, relevance);
    }
    assert Members(frontier) == Layer(g, adj, seeds, horizon);
    cut := {};
    if horizon > 0 {
      cut := CutDependencies(g, adj, frontier, depth);
      CutIsNextLayer(g, adj, seeds, decay, horizon, depth, relevance);
      CompleteMeansClosed(g, adj, seeds, horizon);
      DepthIsBall(g, adj, seeds, decay, horizon, depth, relevance);
    }
  }

  lemma DepthIsBall(g: Graph, adj: Adjacency, seeds: set<NodeId>, decay: real, k: nat,
                    depth: map<NodeId, nat>, relevance: map<NodeId, real>)
    requires Explored(g, adj, seeds, decay, k, depth, relevance)
    ensures depth.Keys == Ball(g, adj, seeds, k)
  {
  }

  lemma Start(g: Graph, adj: Adjacency, seeds: set<NodeId>, decay: real, depth: map<NodeId, nat>,
              relevance: map<NodeId, real>)
    requires depth == (map s | s in seeds :: 0) && relevance == Ones(seeds)
    ensures Explored(g, adj, seeds, decay, 0, depth, relevance) && Layer(g, adj, seeds, 0) == seeds
  {
  }

  lemma SortedMembers(ids: set<NodeId>)
    ensures Members(Sorted(ids)) == ids && (Sorted(ids) == [] <==> ids == {})
  {
    if ids != {} {
      var x :| x in ids;
      assert x in Sorted(ids);
    }
  }

  lemma ExploredSettles(g: Graph, adj: Adjacency, seeds: set<NodeId>, decay: real, j: nat, k: nat,
                        depth: map<NodeId, nat>, relevance: map<NodeId, real>)
    requires j <= k && Explored(g, adj, seeds, decay, j, depth, relevance)
    requires Ball(g, adj, seeds, k) == Ball(g, adj, seeds, j)
    requires Relevance(g, adj, seeds, decay, k) == Relevance(g, adj, seeds, decay, j)
    ensures Explored(g, adj, seeds, decay, k, depth, relevance)
  {
  }

  method CutDependencies(g: Graph, adj: Adjacency, frontier: seq<NodeId>, depth: map<NodeId, nat>)
    returns (cut: set<NodeId>)
    ensures cut == TargetsOf(g, adj, Members(frontier)) - depth.Keys
  {
    hide Dead, Live, TargetsOf;
    cut := {};
    NoTargets(g, adj);
    NoneLive(g);
    for i := 0 to |frontier|
      invariant cut == TargetsOf(g, adj, Members(frontier[..i])) - depth.Keys
    {
      assert Members(frontier[..i + 1]) == Members(frontier[..i]) + {frontier[i]};
      TargetsOfOneMore(g, adj, Members(frontier[..i]), frontier[i]);
      var children := ChildrenOf(adj, frontier[i]);
      ghost var before := cut;
      for j := 0 to |children|
        invariant cut == before + (Live(g, children[..j]) - depth.Keys)
      {
        var (child, _) := children[j];
        LiveStep(g, children, j);
        if !Dead(g, child) && child !in depth {
          cut := cut + {child};
        }
      }
      assert children[..|children|] == children;
    }
    assert frontier[..|frontier|] == frontier;
  }

  lemma CutIsNextLayer(g: Graph, adj: Adjacency, seeds: set<NodeId>, decay: real, k: nat,
                       depth: map<NodeId, nat>, relevance: map<NodeId, real>)
    requires Explored(g, adj, seeds, decay, k, depth, relevance)
    ensures TargetsOf(g, adj, Layer(g, adj, seeds, k)) - depth.Keys == Layer(g, adj, seeds, k + 1)
  {
    hide TargetsOf, Layer, Ball, Relevance;
    BallFromLayer(g, adj, seeds, k);
    LayerIs(g, adj, seeds, k + 1);
  }

  // ----- completeness -----

  /** No dependency leads out. */
  predicate Closed(g: Graph, adj: Adjacency, ids: set<NodeId>)
  {
    TargetsOf(g, adj, ids) <= ids
  }

  /** The flag is right for every horizon but zero: nothing was cut exactly when the cone is closed. */
  lemma CompleteMeansClosed(g: Graph, adj: Adjacency, seeds: set<NodeId>, k: nat)
    ensures Layer(g, adj, seeds, k + 1) == {} <==> Closed(g, adj, Ball(g, adj, seeds, k))
  {
    hide TargetsOf, Layer;
    var ball := Ball(g, adj, seeds, k);
    LayerIs(g, adj, seeds, k + 1);
    assert Ball(g, adj, seeds, k + 1) == ball + TargetsOf(g, adj, ball);
    if Closed(g, adj, ball) {
      assert ball + TargetsOf(g, adj, ball) == ball;
    } else {
      var v :| v in TargetsOf(g, adj, ball) && v !in ball;
      assert v in Layer(g, adj, seeds, k + 1);
    }
  }

  /** Horizon zero never looks: whatever the seeds depend on, nothing is cut and the cone counts as
      complete. That is right exactly when the seeds are closed, which these are not. */
  lemma HorizonZeroClaimsTooMuch() returns (g: Graph, adj: Adjacency, seeds: set<NodeId>)
    ensures Indexes(adj, g.edges)
    ensures Ball(g, adj, seeds, 0) == seeds && !Closed(g, adj, seeds)
  {
    hide SortBy, OutEdges, InEdges, Indexes, Pushed, TargetsOf;
    g := Graph(map["a" := Node(Working, 1.0), "b" := Node(Stable, 1.0)], [Edge("a", "b", 1.0, Calls)]);
    adj := SortLists(Push(Adjacency(map[], map[]), g.edges[0]));
    seeds := {"a"};
    NothingPushed(g.edges);
    PushOne(Adjacency(map[], map[]), g.edges, 0);
    assert g.edges[..1] == g.edges;
    SortedIndexes(Push(Adjacency(map[], map[]), g.edges[0]), g.edges);
    SortOne(("b", 1.0));
    assert "a"[0] != "b"[0];
    assert [] + [("b", 1.0)] == [("b", 1.0)];
    assert ChildrenOf(adj, "a") == [("b", 1.0)];
    LeadsOut(g, adj, "a", ("b", 1.0));
  }

  lemma LeadsOut(g: Graph, adj: Adjacency, a: NodeId, c: (NodeId, real))
    requires ChildrenOf(adj, a) == [c] && !Dead(g, c.0) && c.0 != a
    ensures Ball(g, adj, {a}, 0) == {a} && !Closed(g, adj, {a})
  {
    assert c in ChildrenOf(adj, a);
    assert c.0 in Targets(g, adj, a);
    assert c.0 in TargetsOf(g, adj, {a});
  }

  lemma SortOne(c: (NodeId, real))
    ensures SortBy([c], ByTarget) == [c]
  {
    assert [c][..0] == [];
  }
}
