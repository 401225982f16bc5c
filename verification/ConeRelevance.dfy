/** What relevance measures: the sum, over the dependency walks from the seeds whose parents come in the
    order in which the traversal processes them, of decay times weight along the walk; and when these are
    all the walks within the horizon. */
module ConeRelevance {
  import opened Names
  import opened CausalCone
  import opened DependencyWalks

  // ----- relevance counts walks in processing order -----

  /** The parents in the order they are processed in the first `k` layers: layer by layer, by id. */
  function Processed(g: Graph, adj: Adjacency, seeds: set<NodeId>, k: nat): seq<NodeId>
  {
    if k == 0 then [] else Processed(g, adj, seeds, k - 1) + Sorted(Layer(g, adj, seeds, k - 1))
  }

  /** The walks that processing these parents in turn has counted. */
  function Counted(g: Graph, adj: Adjacency, seeds: set<NodeId>, ids: seq<NodeId>): seq<Walk>
  {
    if ids == [] then Starts(Sorted(seeds))
    else
      var n := |ids| - 1;
      var ws := Counted(g, adj, seeds, ids[..n]);
      ws + Through(g, adj, ws, ids[n])
  }

  /** What a mass on one node puts on `v` along the given edges. */
  function Pass(g: Graph, mass: real, children: seq<(NodeId, real)>, v: NodeId): real
  {
    if children == [] then 0.0
    else
      var n := |children| - 1;
      var (child, w) := children[n];
      Pass(g, mass, children[..n], v) + if child == v && !Dead(g, child) then Times(mass, w) else 0.0
  }

  lemma {:induction false} RelaxPasses(g: Graph, mass: real, children: seq<(NodeId, real)>,
                                       rel: map<NodeId, real>, v: NodeId)
    ensures At(RelaxChildren(g, mass, children, rel), v) == At(rel, v) + Pass(g, mass, children, v)
  {
    hide Times, Dead;
    if children == [] {
    } else {
      RelaxPasses(g, mass, children[..|children| - 1], rel, v);
    }
  }

  lemma TimesAdds(x: real, y: real, z: real)
    ensures Times(x + y, z) == Times(x, z) + Times(y, z)
    ensures Times(0.0, z) == 0.0
  {
  }

  lemma {:induction false} PassAdds(g: Graph, x: real, y: real, children: seq<(NodeId, real)>, v: NodeId)
    ensures Pass(g, x + y, children, v) == Pass(g, x, children, v) + Pass(g, y, children, v)
    ensures Pass(g, 0.0, children, v) == 0.0
  {
    hide Times, Dead;
    if children == [] {
    } else {
      var n := |children| - 1;
      PassAdds(g, x, y, children[..n], v);
      TimesAdds(x, y, children[n].1);
    }
  }

  lemma ValueExtended(w: Walk, c: (NodeId, real), decay: real)
    ensures Value(Snoc(w, c), decay) == Times(Times(Value(w, decay), decay), c.1) && End(Snoc(w, c)) == c.0
  {
    hide Times;
    SnocParts(w, c);
  }

  lemma SumSnoc(ws: seq<Walk>, x: Walk, decay: real, v: NodeId)
    ensures SumTo(ws + [x], decay, v) == SumTo(ws, decay, v) + if End(x) == v then Value(x, decay) else 0.0
  {
    hide Value, End;
    assert (ws + [x])[..|ws|] == ws;
  }

  lemma {:induction false} ExtendPasses(g: Graph, decay: real, w: Walk, children: seq<(NodeId, real)>, v: NodeId)
    ensures SumTo(Extend(g, w, children), decay, v) == Pass(g, Times(Value(w, decay), decay), children, v)
  {
    hide Times, Dead, Snoc, Value, End;
    if children == [] {
    } else {
      var n := |children| - 1;
      ExtendPasses(g, decay, w, children[..n], v);
      SumSnoc(Extend(g, w, children[..n]), Snoc(w, children[n]), decay, v);
      ValueExtended(w, children[n], decay);
    }
  }

  /** One more step on the walks that end in `p` brings what their summed value passes on. */
  lemma {:induction false} ThroughPasses(g: Graph, adj: Adjacency, decay: real, ws: seq<Walk>, p: NodeId, v: NodeId)
    ensures SumTo(Through(g, adj, ws, p), decay, v) == Pass(g, Times(SumTo(ws, decay, p), decay), ChildrenOf(adj, p), v)
  {
    hide Times, Value, End, Extend, Pass;
    var children := ChildrenOf(adj, p);
    if ws == [] {
      TimesAdds(0.0, 0.0, decay);
      PassAdds(g, 0.0, 0.0, children, v);
    } else {
      var n := |ws| - 1;
      ThroughPasses(g, adj, decay, ws[..n], p, v);
      if End(ws[n]) == p {
        SumAppends(Through(g, adj, ws[..n], p), Extend(g, ws[n], children), decay, v);
        ExtendPasses(g, decay, ws[n], children, v);
        TimesAdds(SumTo(ws[..n], decay, p), Value(ws[n], decay), decay);
        PassAdds(g, Times(SumTo(ws[..n], decay, p), decay), Times(Value(ws[n], decay), decay), children, v);
      }
    }
  }

  lemma {:induction false} OneEach(ids: seq<NodeId>, decay: real, v: NodeId)
    requires Distinct(ids)
    ensures SumTo(Starts(ids), decay, v) == if v in ids then 1.0 else 0.0
  {
    if ids == [] {
    } else {
      var n := |ids| - 1;
      OneEach(ids[..n], decay, v);
      SumSnoc(Starts(ids[..n]), Walk(ids[n], []), decay, v);
      assert ids == ids[..n] + [ids[n]];
    }
  }

  /** Relaxing any parents in turn, on any graph, sums the walks counted that way. */
  lemma {:induction false} RelaxedCounts(g: Graph, adj: Adjacency, seeds: set<NodeId>, decay: real,
                                         ids: seq<NodeId>, v: NodeId)
    ensures At(RelaxAll(g, adj, decay, ids, Ones(seeds)), v) == SumTo(Counted(g, adj, seeds, ids), decay, v)
  {
    hide Times, SumTo, Through, RelaxChildren, Pass, Sorted, Starts, Distinct;
    if ids == [] {
      SortedDistinct(seeds);
      OneEach(Sorted(seeds), decay, v);
    } else {
      var n := |ids| - 1;
      var p, r := ids[n], RelaxAll(g, adj, decay, ids[..n], Ones(seeds));
      var ws := Counted(g, adj, seeds, ids[..n]);
      RelaxedCounts(g, adj, seeds, decay, ids[..n], v);
      RelaxedCounts(g, adj, seeds, decay, ids[..n], p);
      RelaxPasses(g, Times(At(r, p), decay), ChildrenOf(adj, p), r, v);
      ThroughPasses(g, adj, decay, ws, p, v);
      SumAppends(ws, Through(g, adj, ws, p), decay, v);
    }
  }

  lemma {:induction false} RelaxedInTurn(g: Graph, adj: Adjacency, decay: real, p: seq<NodeId>, q: seq<NodeId>,
                                         rel: map<NodeId, real>)
    ensures RelaxAll(g, adj, decay, p + q, rel) == RelaxAll(g, adj, decay, q, RelaxAll(g, adj, decay, p, rel))
  {
    hide RelaxChildren, Times;
    if q == [] {
      assert p + q == p;
    } else {
      var n := |q| - 1;
      assert (p + q)[..|p| + n] == p + q[..n];
      RelaxedInTurn(g, adj, decay, p, q[..n], rel);
    }
  }

  lemma RelevanceUnfolds(g: Graph, adj: Adjacency, seeds: set<NodeId>, decay: real, k: nat)
    ensures k == 0 ==> Relevance(g, adj, seeds, decay, k) == Ones(seeds)
    ensures k > 0 ==> Relevance(g, adj, seeds, decay, k)
                      == RelaxAll(g, adj, decay, Sorted(Layer(g, adj, seeds, k - 1)),
                          Relevance(g, adj, seeds, decay, k - 1))
  {
  }

  lemma {:induction false} RelevanceIsRelaxed(g: Graph, adj: Adjacency, seeds: set<NodeId>, decay: real, k: nat)
    ensures Relevance(g, adj, seeds, decay, k) == RelaxAll(g, adj, decay, Processed(g, adj, seeds, k), Ones(seeds))
  {
    hide Layer, Sorted, RelaxAll, Relevance, Ones;
    RelevanceUnfolds(g, adj, seeds, decay, k);
    if k == 0 {
      RelaxNothing(g, adj, decay, Ones(seeds));
    } else {
      RelevanceIsRelaxed(g, adj, seeds, decay, k - 1);
      RelaxedInTurn(g, adj, decay, Processed(g, adj, seeds, k - 1), Sorted(Layer(g, adj, seeds, k - 1)), Ones(seeds));
    }
  }

  // ----- which walks those are -----

  /** `u` is processed before `w`: in an earlier layer, or in the same one with a smaller id. */
  ghost predicate Earlier(g: Graph, adj: Adjacency, seeds: set<NodeId>, u: NodeId, w: NodeId)
  {
    exists i: nat, j: nat ::
      u in Layer(g, adj, seeds, i) && w in Layer(g, adj, seeds, j) && (i < j || (i == j && Before(u, w)))
  }

  /** The node is processed among the first `k` layers. */
  ghost predicate IsParent(g: Graph, adj: Adjacency, seeds: set<NodeId>, k: nat, u: NodeId)
  {
    k > 0 && u in Ball(g, adj, seeds, k - 1)
  }

  ghost predicate StepsLater(g: Graph, adj: Adjacency, seeds: set<NodeId>, x: Walk, i: nat)
    requires 0 < i <= |x.steps|
  {
    Earlier(g, adj, seeds, NodeAt(x, i - 1), NodeAt(x, i))
  }

  /** The parents of the walk come in processing order. */
  ghost predicate Ascends(g: Graph, adj: Adjacency, seeds: set<NodeId>, x: Walk)
  {
    forall i | 0 < i < |x.steps| :: StepsLater(g, adj, seeds, x, i)
  }

  /** The parents of the walk, that is, all its nodes but the last, lie in the first `k` layers and come
      in processing order; its last step is free. */
  ghost predicate InTurn(g: Graph, adj: Adjacency, seeds: set<NodeId>, k: nat, x: Walk)
  {
    && (forall i | 0 <= i < |x.steps| :: IsParent(g, adj, seeds, k, NodeAt(x, i)))
    && Ascends(g, adj, seeds, x)
  }

  lemma LayersApart(g: Graph, adj: Adjacency, seeds: set<NodeId>, j: nat, k: nat, v: NodeId)
    requires j < k && v in Layer(g, adj, seeds, j)
    ensures v !in Layer(g, adj, seeds, k)
  {
    hide Ball;
    LayerInBall(g, adj, seeds, j);
    BallGrows(g, adj, seeds, j, k - 1);
  }

  lemma OneLayerOnly(g: Graph, adj: Adjacency, seeds: set<NodeId>, j: nat, k: nat, v: NodeId)
    requires v in Layer(g, adj, seeds, j) && v in Layer(g, adj, seeds, k)
    ensures j == k
  {
    hide Layer;
    if j < k {
      LayersApart(g, adj, seeds, j, k, v);
    } else if k < j {
      LayersApart(g, adj, seeds, k, j, v);
    }
  }

  lemma EarlierTransitive(g: Graph, adj: Adjacency, seeds: set<NodeId>, u: NodeId, v: NodeId, w: NodeId)
    requires Earlier(g, adj, seeds, u, v) && Earlier(g, adj, seeds, v, w)
    ensures Earlier(g, adj, seeds, u, w)
  {
    hide Layer, Before;
    var i: nat, j: nat :| u in Layer(g, adj, seeds, i) && v in Layer(g, adj, seeds, j)
        && (i < j || (i == j && Before(u, v)));
    var j': nat, k: nat :| v in Layer(g, adj, seeds, j') && w in Layer(g, adj, seeds, k)
        && (j' < k || (j' == k && Before(v, w)));
    OneLayerOnly(g, adj, seeds, j, j', v);
    if i == j && j == k {
      BeforeTransitive(u, v, w);
    }
  }

  lemma NotEarlierThanItself(g: Graph, adj: Adjacency, seeds: set<NodeId>, u: NodeId)
    ensures !Earlier(g, adj, seeds, u, u)
  {
    hide Layer, Before;
    forall i: nat, j: nat | u in Layer(g, adj, seeds, i) && u in Layer(g, adj, seeds, j)
      ensures !(i < j || (i == j && Before(u, u)))
    {
      OneLayerOnly(g, adj, seeds, i, j, u);
      if Before(u, u) {
        BeforeAsymmetric(u, u);
      }
    }
  }

  ghost predicate InEarlierOrder(g: Graph, adj: Adjacency, seeds: set<NodeId>, ids: seq<NodeId>)
  {
    forall i, j | 0 <= i < j < |ids| :: Earlier(g, adj, seeds, ids[i], ids[j])
  }

  lemma {:induction false} ProcessedInOrder(g: Graph, adj: Adjacency, seeds: set<NodeId>, k: nat)
    ensures InEarlierOrder(g, adj, seeds, Processed(g, adj, seeds, k))
    ensures forall u :: u in Processed(g, adj, seeds, k) <==> exists d: nat :: d < k && u in Layer(g, adj, seeds, d)
  {
    hide Layer, Sorted, Before;
    if k == 0 {
    } else {
      ProcessedInOrder(g, adj, seeds, k - 1);
      var p, q := Processed(g, adj, seeds, k - 1), Sorted(Layer(g, adj, seeds, k - 1));
      forall i, j | 0 <= i < j < |p + q|
        ensures Earlier(g, adj, seeds, (p + q)[i], (p + q)[j])
      {
        if j >= |p| {
          assert q[j - |p|] in q;
          if i < |p| {
            assert p[i] in p;
          } else {
            assert q[i - |p|] in q;
          }
        }
      }
      var j := k - 1;
      forall u
        ensures u in p + q <==> exists d: nat :: d < k && u in Layer(g, adj, seeds, d)
      {
        assert u in q <==> u in Layer(g, adj, seeds, j);
      }
    }
  }

  lemma {:induction false} BallIsLayers(g: Graph, adj: Adjacency, seeds: set<NodeId>, k: nat, u: NodeId)
    ensures u in Ball(g, adj, seeds, k) <==> exists d: nat :: d <= k && u in Layer(g, adj, seeds, d)
  {
    hide TargetsOf;
    if u in Ball(g, adj, seeds, k) {
      if k > 0 && u in Ball(g, adj, seeds, k - 1) {
        BallIsLayers(g, adj, seeds, k - 1, u);
      } else {
        assert u in Layer(g, adj, seeds, k);
      }
    }
    forall d: nat | d <= k && u in Layer(g, adj, seeds, d)
      ensures u in Ball(g, adj, seeds, k)
    {
      LayerInBall(g, adj, seeds, d);
      BallGrows(g, adj, seeds, d, k);
    }
  }

  /** The parents of the walk, from the last back, are found in `ids` from the back. */
  predicate Subsequence(ids: seq<NodeId>, x: Walk)
    decreases |ids|
  {
    x.steps == []
    || (ids != []
        && var n := |ids| - 1;
           Subsequence(ids[..n], x) || (ids[n] == End(Init(x)) && Subsequence(ids[..n], Init(x))))
  }

  lemma {:induction false} ParentIsListed(ids: seq<NodeId>, x: Walk)
    requires Subsequence(ids, x) && x.steps != []
    ensures End(Init(x)) in ids
  {
    hide Init, End;
    var n := |ids| - 1;
    if Subsequence(ids[..n], x) {
      ParentIsListed(ids[..n], x);
    }
  }

  /** A walk whose parents are found in order is counted once for every way to choose its edges. */
  lemma {:induction false} CountedCount(g: Graph, adj: Adjacency, seeds: set<NodeId>, ids: seq<NodeId>, x: Walk)
    requires Distinct(ids)
    ensures multiset(Counted(g, adj, seeds, ids))[x]
            == if FromSeed(g, adj, seeds, x) && Subsequence(ids, x) then Ways(adj, x) else 0
  {
    hide Dead, End, Init, Last, IsWalk, Sorted, Starts, Through, Ways, LastWays, StepHolds;
    if ids == [] {
      SortedDistinct(seeds);
      StartsCount(Sorted(seeds), x);
      NoStepsWays(adj, x);
      if x.steps == [] {
        EmptyWalk(g, adj, x);
      }
    } else {
      var n := |ids| - 1;
      var ws := Counted(g, adj, seeds, ids[..n]);
      CountedCount(g, adj, seeds, ids[..n], x);
      ThroughCount(g, adj, ws, ids[n], x);
      if x.steps != [] {
        SameStart(x);
        CountedCount(g, adj, seeds, ids[..n], Init(x));
        WalkByStep(g, adj, x);
        LastTakes(g, adj, x, multiset(ws)[Init(x)]);
        if StepHolds(g, adj, End(Init(x)), Last(x)) {
          StepAlive(g, adj, x);
        }
        if Subsequence(ids[..n], x) {
          ParentIsListed(ids[..n], x);
        }
      }
    }
  }

  lemma SameStart(x: Walk)
    requires x.steps != []
    ensures Init(x).start == x.start
  {
  }

  lemma StepAlive(g: Graph, adj: Adjacency, x: Walk)
    requires x.steps != [] && StepHolds(g, adj, End(Init(x)), Last(x))
    ensures !Dead(g, Last(x).0)
  {
  }

  /** The parents lie in `ids` and come in processing order. */
  ghost predicate Rising(g: Graph, adj: Adjacency, seeds: set<NodeId>, ids: seq<NodeId>, x: Walk)
  {
    && (forall i | 0 <= i < |x.steps| :: NodeAt(x, i) in ids)
    && Ascends(g, adj, seeds, x)
  }

  lemma {:induction false} RisingChain(g: Graph, adj: Adjacency, seeds: set<NodeId>, ids: seq<NodeId>, x: Walk,
                                       i: nat, j: nat)
    requires Rising(g, adj, seeds, ids, x) && i < j < |x.steps|
    ensures Earlier(g, adj, seeds, NodeAt(x, i), NodeAt(x, j))
    decreases j - i
  {
    hide Earlier, NodeAt;
    var h := j - 1;
    assert StepsLater(g, adj, seeds, x, j);
    if i < h {
      RisingChain(g, adj, seeds, ids, x, i, h);
      EarlierTransitive(g, adj, seeds, NodeAt(x, i), NodeAt(x, h), NodeAt(x, j));
    }
  }

  lemma InitNodes(x: Walk)
    requires x.steps != []
    ensures End(Init(x)) == NodeAt(x, |x.steps| - 1)
    ensures forall i | 0 <= i < |x.steps| :: NodeAt(Init(x), i) == NodeAt(x, i)
  {
  }

  /** In a list in processing order, to be found in order is to be listed and to rise. */
  lemma {:induction false} SubsequenceRises(g: Graph, adj: Adjacency, seeds: set<NodeId>, ids: seq<NodeId>, x: Walk)
    requires InEarlierOrder(g, adj, seeds, ids)
    ensures Subsequence(ids, x) <==> Rising(g, adj, seeds, ids, x)
    decreases |ids|
  {
    hide Earlier, NodeAt, Init, End;
    if x.steps != [] && ids != [] {
      var n, m := |ids| - 1, |x.steps| - 1;
      assert ids == ids[..n] + [ids[n]];
      InitNodes(x);
      assert |Init(x).steps| == m by {
        InitLength(x);
      }
      SubsequenceRises(g, adj, seeds, ids[..n], x);
      SubsequenceRises(g, adj, seeds, ids[..n], Init(x));
      if Rising(g, adj, seeds, ids[..n], Init(x)) && ids[n] == NodeAt(x, m) {
        LastRises(g, adj, seeds, ids, x);
      }
      if Rising(g, adj, seeds, ids, x) {
        RisesWithoutLast(g, adj, seeds, ids, x);
      }
    } else if x.steps != [] {
      assert NodeAt(x, 0) !in ids;
    }
  }

  lemma InitLength(x: Walk)
    requires x.steps != []
    ensures |Init(x).steps| == |x.steps| - 1
  {
  }

  lemma LastRises(g: Graph, adj: Adjacency, seeds: set<NodeId>, ids: seq<NodeId>, x: Walk)
    requires InEarlierOrder(g, adj, seeds, ids) && ids != [] && x.steps != []
    requires Rising(g, adj, seeds, ids[..|ids| - 1], Init(x)) && ids[|ids| - 1] == NodeAt(x, |x.steps| - 1)
    ensures Rising(g, adj, seeds, ids, x)
  {
    hide Earlier, NodeAt, Init;
    var n, m := |ids| - 1, |x.steps| - 1;
    InitNodes(x);
    InitLength(x);
    forall i | 0 <= i < |x.steps|
      ensures NodeAt(x, i) in ids
    {
      if i < m {
        assert NodeAt(Init(x), i) in ids[..n];
      }
    }
    forall i | 0 < i < |x.steps|
      ensures StepsLater(g, adj, seeds, x, i)
    {
      if i < m {
        assert StepsLater(g, adj, seeds, Init(x), i);
        assert NodeAt(Init(x), i - 1) == NodeAt(x, i - 1);
      } else {
        assert NodeAt(Init(x), i - 1) == NodeAt(x, i - 1);
        assert NodeAt(Init(x), i - 1) in ids[..n];
        var a :| 0 <= a < n && ids[..n][a] == NodeAt(x, i - 1);
        assert Earlier(g, adj, seeds, ids[a], ids[n]);
      }
    }
  }

  lemma RisesWithoutLast(g: Graph, adj: Adjacency, seeds: set<NodeId>, ids: seq<NodeId>, x: Walk)
    requires InEarlierOrder(g, adj, seeds, ids) && ids != [] && x.steps != []
    requires Rising(g, adj, seeds, ids, x)
    ensures var n := |ids| - 1;
            if ids[n] == NodeAt(x, |x.steps| - 1) then Rising(g, adj, seeds, ids[..n], Init(x))
            else Rising(g, adj, seeds, ids[..n], x)
  {
    hide Earlier, NodeAt, Init;
    var n, m := |ids| - 1, |x.steps| - 1;
    var p := NodeAt(x, m);
    InitNodes(x);
    InitLength(x);
    assert ids == ids[..n] + [ids[n]];
    assert p in ids;
    forall i | 0 <= i < m
      ensures NodeAt(x, i) in ids[..n]
    {
      RisingChain(g, adj, seeds, ids, x, i, m);
      if NodeAt(x, i) == ids[n] {
        NotEarlierThanItself(g, adj, seeds, p);
        var a :| 0 <= a < |ids| && ids[a] == p;
        if a < n {
          EarlierTransitive(g, adj, seeds, p, ids[n], p);
        }
      }
    }
    forall i | 0 < i < m
      ensures StepsLater(g, adj, seeds, Init(x), i)
    {
      assert StepsLater(g, adj, seeds, x, i);
      assert NodeAt(Init(x), i - 1) == NodeAt(x, i - 1);
    }
  }

  lemma OrderedIsDistinct(g: Graph, adj: Adjacency, seeds: set<NodeId>, ids: seq<NodeId>)
    requires InEarlierOrder(g, adj, seeds, ids)
    ensures Distinct(ids)
  {
    hide Earlier;
    forall i, j | 0 <= i < j < |ids|
      ensures ids[i] != ids[j]
    {
      NotEarlierThanItself(g, adj, seeds, ids[i]);
    }
  }

  lemma ProcessedIsBall(g: Graph, adj: Adjacency, seeds: set<NodeId>, k: nat, u: NodeId)
    ensures u in Processed(g, adj, seeds, k) <==> IsParent(g, adj, seeds, k, u)
  {
    hide Processed, Layer, Ball;
    ProcessedInOrder(g, adj, seeds, k);
    if k > 0 {
      BallIsLayers(g, adj, seeds, k - 1, u);
    }
  }

  lemma RisingIsInTurn(g: Graph, adj: Adjacency, seeds: set<NodeId>, k: nat, x: Walk)
    ensures Rising(g, adj, seeds, Processed(g, adj, seeds, k), x) <==> InTurn(g, adj, seeds, k, x)
  {
    hide Processed, IsParent, Ascends, NodeAt;
    forall i | 0 <= i < |x.steps|
      ensures NodeAt(x, i) in Processed(g, adj, seeds, k) <==> IsParent(g, adj, seeds, k, NodeAt(x, i))
    {
      ProcessedIsBall(g, adj, seeds, k, NodeAt(x, i));
    }
  }

  /** The walks counted in the first `k` layers. */
  function CountedWalks(g: Graph, adj: Adjacency, seeds: set<NodeId>, k: nat): seq<Walk>
  {
    Counted(g, adj, seeds, Processed(g, adj, seeds, k))
  }

  /** They are the walks from the seeds whose parents lie in those layers and come in processing order,
      each once for every way to choose its edges. */
  lemma CountedWalksAre(g: Graph, adj: Adjacency, seeds: set<NodeId>, k: nat, x: Walk)
    ensures multiset(CountedWalks(g, adj, seeds, k))[x]
            == if FromSeed(g, adj, seeds, x) && InTurn(g, adj, seeds, k, x) then Ways(adj, x) else 0
  {
    hide Counted, Processed, FromSeed, Ways, Subsequence, Distinct, InEarlierOrder, InTurn, Rising;
    var ids := Processed(g, adj, seeds, k);
    ProcessedInOrder(g, adj, seeds, k);
    OrderedIsDistinct(g, adj, seeds, ids);
    CountedCount(g, adj, seeds, ids, x);
    SubsequenceRises(g, adj, seeds, ids, x);
    RisingIsInTurn(g, adj, seeds, k, x);
  }

  /** On every graph, relevance is the sum over exactly those walks of the product of decay times edge
      weight. */
  lemma RelevanceSumsCounted(g: Graph, adj: Adjacency, seeds: set<NodeId>, decay: real, k: nat, v: NodeId)
    ensures At(Relevance(g, adj, seeds, decay, k), v) == SumTo(CountedWalks(g, adj, seeds, k), decay, v)
  {
    hide Relevance, RelaxAll, SumTo, Counted, Processed, At;
    RelevanceIsRelaxed(g, adj, seeds, decay, k);
    RelaxedCounts(g, adj, seeds, decay, Processed(g, adj, seeds, k), v);
  }

  // ----- when these are all the walks within the horizon -----

  /** The walks counted are the walks of at most `k` edges. */
  ghost predicate CountsAll(g: Graph, adj: Adjacency, seeds: set<NodeId>, k: nat)
  {
    forall x | FromSeed(g, adj, seeds, x) :: InTurn(g, adj, seeds, k, x) <==> |x.steps| <= k
  }

  /** Then relevance sums all walks within the horizon; and only then are the same walks summed. */
  lemma SameWalksExactly(g: Graph, adj: Adjacency, seeds: set<NodeId>, decay: real, k: nat)
    ensures multiset(CountedWalks(g, adj, seeds, k)) == multiset(WalksUpTo(g, adj, seeds, k))
        <==> CountsAll(g, adj, seeds, k)
    ensures CountsAll(g, adj, seeds, k) ==>
              forall v :: At(Relevance(g, adj, seeds, decay, k), v) == SumTo(WalksUpTo(g, adj, seeds, k), decay, v)
  {
    hide CountedWalks, WalksUpTo, FromSeed, InTurn, Ways, Relevance, SumTo, At;
    var a, b := multiset(CountedWalks(g, adj, seeds, k)), multiset(WalksUpTo(g, adj, seeds, k));
    forall x
      ensures a[x] == if FromSeed(g, adj, seeds, x) && InTurn(g, adj, seeds, k, x) then Ways(adj, x) else 0
      ensures b[x] == if FromSeed(g, adj, seeds, x) && |x.steps| <= k then Ways(adj, x) else 0
      ensures FromSeed(g, adj, seeds, x) ==> Ways(adj, x) > 0
    {
      CountedWalksAre(g, adj, seeds, k, x);
      WalksUpToCount(g, adj, seeds, k, x);
      SeedWays(g, adj, seeds, x);
    }
    if CountsAll(g, adj, seeds, k) {
      assert a == b;
      forall v
        ensures At(Relevance(g, adj, seeds, decay, k), v) == SumTo(WalksUpTo(g, adj, seeds, k), decay, v)
      {
        RelevanceSumsCounted(g, adj, seeds, decay, k, v);
        SumIgnoresOrder(CountedWalks(g, adj, seeds, k), WalksUpTo(g, adj, seeds, k), decay, v);
      }
    }
    if a == b {
      forall x | FromSeed(g, adj, seeds, x)
        ensures InTurn(g, adj, seeds, k, x) <==> |x.steps| <= k
      {
        assert a[x] == b[x];
      }
    }
  }

  lemma SeedWays(g: Graph, adj: Adjacency, seeds: set<NodeId>, x: Walk)
    ensures FromSeed(g, adj, seeds, x) ==> Ways(adj, x) > 0
  {
    hide IsWalk, Ways;
    if FromSeed(g, adj, seeds, x) {
      WaysPositive(g, adj, x);
    }
  }

  /** Every edge that some walk of at most `k` edges takes before its last leads on in processing order. */
  ghost predicate EdgesLeadOn(g: Graph, adj: Adjacency, seeds: set<NodeId>, k: nat)
  {
    forall d: nat, u, v | d + 2 <= k && u in Layer(g, adj, seeds, d) && v in Targets(g, adj, u)
        && Targets(g, adj, v) != {} ::
      Earlier(g, adj, seeds, u, v)
  }

  /** A walk in processing order goes past the horizon by one edge. */
  ghost predicate Overruns(g: Graph, adj: Adjacency, seeds: set<NodeId>, k: nat, x: Walk)
  {
    FromSeed(g, adj, seeds, x) && |x.steps| == k + 1 && InTurn(g, adj, seeds, k, x)
  }

  lemma StepIsTarget(g: Graph, adj: Adjacency, x: Walk, i: nat)
    requires IsWalk(g, adj, x) && i < |x.steps|
    ensures NodeAt(x, i + 1) in Targets(g, adj, NodeAt(x, i))
  {
    assert StepHolds(g, adj, NodeAt(x, i), x.steps[i]);
  }

  lemma {:induction false} NodeInBall(g: Graph, adj: Adjacency, seeds: set<NodeId>, x: Walk, i: nat)
    requires FromSeed(g, adj, seeds, x) && i <= |x.steps|
    ensures NodeAt(x, i) in Ball(g, adj, seeds, i)
  {
    hide IsWalk, Targets;
    if i == 0 {
    } else {
      NodeInBall(g, adj, seeds, x, i - 1);
      StepIsTarget(g, adj, x, i - 1);
    }
  }

  lemma Stepping(g: Graph, adj: Adjacency, u: NodeId, v: NodeId) returns (c: (NodeId, real))
    requires v in Targets(g, adj, u)
    ensures StepHolds(g, adj, u, c) && c.0 == v
  {
    c :| c in ChildrenOf(adj, u) && !Dead(g, c.0) && c.0 == v;
  }

  lemma SnocWalk(g: Graph, adj: Adjacency, seeds: set<NodeId>, w: Walk, c: (NodeId, real))
    requires FromSeed(g, adj, seeds, w) && StepHolds(g, adj, End(w), c)
    ensures FromSeed(g, adj, seeds, Snoc(w, c)) && |Snoc(w, c).steps| == |w.steps| + 1
    ensures End(Snoc(w, c)) == c.0 && NodeAt(Snoc(w, c), |w.steps|) == End(w)
    ensures NodeAt(Snoc(w, c), |w.steps| + 1) == c.0
  {
    hide IsWalk, StepHolds;
    SnocParts(w, c);
    WalkByStep(g, adj, Snoc(w, c));
  }

  /** A node of layer `d` is the end of a walk of `d` edges. */
  lemma {:induction false} WalkTo(g: Graph, adj: Adjacency, seeds: set<NodeId>, d: nat, u: NodeId) returns (w: Walk)
    requires u in Layer(g, adj, seeds, d)
    ensures FromSeed(g, adj, seeds, w) && End(w) == u && |w.steps| == d
  {
    hide IsWalk, Targets, StepHolds;
    if d == 0 {
      w := Walk(u, []);
      EmptyWalk(g, adj, w);
    } else {
      var p := ParentIn(g, adj, seeds, d, u);
      w := WalkTo(g, adj, seeds, d - 1, p);
      var c := Stepping(g, adj, p, u);
      SnocWalk(g, adj, seeds, w, c);
      w := Snoc(w, c);
    }
  }

  lemma ParentIn(g: Graph, adj: Adjacency, seeds: set<NodeId>, d: nat, u: NodeId) returns (p: NodeId)
    requires d > 0 && u in Layer(g, adj, seeds, d)
    ensures p in Layer(g, adj, seeds, d - 1) && u in Targets(g, adj, p)
  {
    hide Targets, Layer, Ball;
    LayerIs(g, adj, seeds, d);
    BallFromLayer(g, adj, seeds, d - 1);
    assert u in TargetsOf(g, adj, Layer(g, adj, seeds, d - 1));
    p :| p in Layer(g, adj, seeds, d - 1) && u in Targets(g, adj, p);
  }

  /** The walks counted are those within the horizon exactly when edges lead on in processing order and
      no walk in that order overruns the horizon. */
  lemma CountsAllExactly(g: Graph, adj: Adjacency, seeds: set<NodeId>, k: nat)
    ensures CountsAll(g, adj, seeds, k) <==> EdgesLeadOn(g, adj, seeds, k) && forall x :: !Overruns(g, adj, seeds, k, x)
  {
    hide FromSeed, InTurn, EdgesLeadOn;
    if CountsAll(g, adj, seeds, k) {
      AllCountedLeadOn(g, adj, seeds, k);
    }
    if EdgesLeadOn(g, adj, seeds, k) && forall x :: !Overruns(g, adj, seeds, k, x) {
      forall x | FromSeed(g, adj, seeds, x)
        ensures InTurn(g, adj, seeds, k, x) <==> |x.steps| <= k
      {
        if |x.steps| <= k {
          ShortWalkInTurn(g, adj, seeds, k, x);
        } else if InTurn(g, adj, seeds, k, x) {
          CutWalk(g, adj, seeds, k, x);
        }
      }
    }
  }

  lemma AllCountedLeadOn(g: Graph, adj: Adjacency, seeds: set<NodeId>, k: nat)
    requires CountsAll(g, adj, seeds, k)
    ensures EdgesLeadOn(g, adj, seeds, k)
  {
    hide FromSeed, Layer, Targets, Earlier, NodeAt, End, Snoc, StepHolds;
    forall d: nat, u, v | d + 2 <= k && u in Layer(g, adj, seeds, d) && v in Targets(g, adj, u)
        && Targets(g, adj, v) != {}
      ensures Earlier(g, adj, seeds, u, v)
    {
      var w := WalkTo(g, adj, seeds, d, u);
      var c := Stepping(g, adj, u, v);
      SnocWalk(g, adj, seeds, w, c);
      var t :| t in Targets(g, adj, v);
      var e := Stepping(g, adj, v, t);
      SnocWalk(g, adj, seeds, Snoc(w, c), e);
      var x := Snoc(Snoc(w, c), e);
      assert InTurn(g, adj, seeds, k, x);
      assert NodeAt(x, d + 1) == v;
      SnocNode(Snoc(w, c), e, d);
      assert StepsLater(g, adj, seeds, x, d + 1);
    }
  }

  lemma SnocNode(w: Walk, c: (NodeId, real), i: nat)
    requires i <= |w.steps|
    ensures NodeAt(Snoc(w, c), i) == NodeAt(w, i)
  {
  }

  lemma ShortWalkInTurn(g: Graph, adj: Adjacency, seeds: set<NodeId>, k: nat, x: Walk)
    requires FromSeed(g, adj, seeds, x) && |x.steps| <= k && EdgesLeadOn(g, adj, seeds, k)
    ensures InTurn(g, adj, seeds, k, x)
  {
    hide IsWalk, Layer, Ball, Targets, Earlier, NodeAt;
    forall i | 0 <= i < |x.steps|
      ensures IsParent(g, adj, seeds, k, NodeAt(x, i))
    {
      NodeInBall(g, adj, seeds, x, i);
      BallGrows(g, adj, seeds, i, k - 1);
    }
    forall i | 0 < i < |x.steps|
      ensures StepsLater(g, adj, seeds, x, i)
    {
      NodeInBall(g, adj, seeds, x, i - 1);
      BallIsLayers(g, adj, seeds, i - 1, NodeAt(x, i - 1));
      StepIsTarget(g, adj, x, i - 1);
      StepIsTarget(g, adj, x, i);
    }
  }

  lemma CutWalk(g: Graph, adj: Adjacency, seeds: set<NodeId>, k: nat, x: Walk)
    requires FromSeed(g, adj, seeds, x) && |x.steps| > k && InTurn(g, adj, seeds, k, x)
    ensures Overruns(g, adj, seeds, k, Walk(x.start, x.steps[..k + 1]))
  {
    hide StepHolds, Earlier, IsParent, NodeAt;
    var y := Walk(x.start, x.steps[..k + 1]);
    forall i | 0 <= i <= k
      ensures NodeAt(y, i) == NodeAt(x, i)
    {
      CutNode(x, k + 1, i);
    }
    forall i | 0 <= i < |y.steps|
      ensures StepHolds(g, adj, NodeAt(y, i), y.steps[i]) && IsParent(g, adj, seeds, k, NodeAt(y, i))
    {
      assert StepHolds(g, adj, NodeAt(x, i), x.steps[i]) && IsParent(g, adj, seeds, k, NodeAt(x, i));
    }
    forall i | 0 < i < |y.steps|
      ensures StepsLater(g, adj, seeds, y, i)
    {
      assert StepsLater(g, adj, seeds, x, i);
      assert NodeAt(y, i - 1) == NodeAt(x, i - 1);
    }
  }

  lemma CutNode(x: Walk, n: nat, i: nat)
    requires i <= n <= |x.steps|
    ensures NodeAt(Walk(x.start, x.steps[..n]), i) == NodeAt(x, i)
  {
  }

  /** Every dependency edge out of a layer before the horizon leads past that layer. */
  ghost predicate Layered(g: Graph, adj: Adjacency, seeds: set<NodeId>, horizon: nat)
  {
    forall d: nat, u, v | d < horizon && u in Layer(g, adj, seeds, d) && v in Targets(g, adj, u) ::
        v !in Ball(g, adj, seeds, d)
  }

  lemma NextLayer(g: Graph, adj: Adjacency, seeds: set<NodeId>, k: nat, u: NodeId, v: NodeId)
    requires u in Layer(g, adj, seeds, k) && v in Targets(g, adj, u) && v !in Ball(g, adj, seeds, k)
    ensures v in Layer(g, adj, seeds, k + 1)
  {
    hide Targets;
    LayerInBall(g, adj, seeds, k);
    BallFromLayer(g, adj, seeds, k);
  }

  lemma {:induction false} NodeOnLayer(g: Graph, adj: Adjacency, seeds: set<NodeId>, horizon: nat, x: Walk, i: nat)
    requires Layered(g, adj, seeds, horizon) && FromSeed(g, adj, seeds, x) && i <= |x.steps| && i <= horizon
    ensures NodeAt(x, i) in Layer(g, adj, seeds, i)
    decreases i
  {
    hide IsWalk, Targets, Ball, Layer;
    if i == 0 {
      SeedsFirst(g, adj, seeds);
    } else {
      NodeOnLayer(g, adj, seeds, horizon, x, i - 1);
      StepIsTarget(g, adj, x, i - 1);
      NextLayer(g, adj, seeds, i - 1, NodeAt(x, i - 1), NodeAt(x, i));
    }
  }

  lemma SeedsFirst(g: Graph, adj: Adjacency, seeds: set<NodeId>)
    ensures Layer(g, adj, seeds, 0) == seeds
  {
  }

  /** In particular, in a layered cone relevance is the sum over all dependency walks from the seeds
      within the horizon. */
  lemma RelevanceSumsWalks(g: Graph, adj: Adjacency, seeds: set<NodeId>, decay: real, horizon: nat, v: NodeId)
    requires Layered(g, adj, seeds, horizon)
    ensures CountsAll(g, adj, seeds, horizon)
    ensures At(Relevance(g, adj, seeds, decay, horizon), v) == SumTo(WalksUpTo(g, adj, seeds, horizon), decay, v)
  {
    hide Relevance, SumTo, WalksUpTo, CountsAll, At;
    LayeredLeadsOn(g, adj, seeds, horizon);
    forall x
      ensures !Overruns(g, adj, seeds, horizon, x)
    {
      NoOverrun(g, adj, seeds, horizon, x);
    }
    CountsAllExactly(g, adj, seeds, horizon);
    SameWalksExactly(g, adj, seeds, decay, horizon);
  }

  lemma LayeredLeadsOn(g: Graph, adj: Adjacency, seeds: set<NodeId>, horizon: nat)
    requires Layered(g, adj, seeds, horizon)
    ensures EdgesLeadOn(g, adj, seeds, horizon)
  {
    hide Layer, Ball, Targets, Before;
    forall d: nat, u, v | d + 2 <= horizon && u in Layer(g, adj, seeds, d) && v in Targets(g, adj, u)
        && Targets(g, adj, v) != {}
      ensures Earlier(g, adj, seeds, u, v)
    {
      NextLayer(g, adj, seeds, d, u, v);
    }
  }

  lemma NoOverrun(g: Graph, adj: Adjacency, seeds: set<NodeId>, horizon: nat, x: Walk)
    requires Layered(g, adj, seeds, horizon)
    ensures !Overruns(g, adj, seeds, horizon, x)
  {
    hide IsWalk, Ball, Layer, NodeAt, Earlier, Layered;
    if Overruns(g, adj, seeds, horizon, x) {
      assert IsParent(g, adj, seeds, horizon, NodeAt(x, horizon));
      NodeOnLayer(g, adj, seeds, horizon, x, horizon);
      LayerIs(g, adj, seeds, horizon);
    }
  }

  // ----- where they differ -----

  /** One working node that calls itself, and its adjacency. */
  const LOOPING := Graph(map["a" := Node(Working, 1.0)], [Edge("a", "a", 1.0, Calls)])

  const LOOP := Adjacency(map["a" := [("a", 1.0)]], map["a" := ["a"]])

  /** A node that depends on itself: relevance counts the loop once, the walks go around again. */
  lemma LoopBreaksTheSum()
    ensures Indexes(LOOP, LOOPING.edges) && "a" in LOOPING.nodes && !Dead(LOOPING, "a")
    ensures At(Relevance(LOOPING, LOOP, {"a"}, 1.0, 2), "a") == 2.0
    ensures SumTo(WalksUpTo(LOOPING, LOOP, {"a"}, 2), 1.0, "a") == 3.0
  {
    LoopIndexes();
    LoopRelevance();
    LoopWalks();
  }

  lemma LoopIndexes()
    ensures Indexes(LOOP, LOOPING.edges)
  {
    assert LOOPING.edges[..0] == [];
    forall id
      ensures ChildrenOf(LOOP, id) == OutEdges(LOOPING.edges, id) && CallersOf(LOOP, id) == InEdges(LOOPING.edges, id)
    {
    }
  }

  lemma LoopRelevance()
    ensures At(Relevance(LOOPING, LOOP, {"a"}, 1.0, 2), "a") == 2.0
  {
    hide Sorted;
    var g, adj := LOOPING, LOOP;
    SortedOne("a");
    var children: seq<(NodeId, real)> := [("a", 1.0)];
    assert children[..0] == [] && ["a"][..0] == [];
    assert Targets(g, adj, "a") == {"a"} by {
      assert children[0] in children;
    }
    assert TargetsOf(g, adj, {"a"}) == {"a"};
    assert Ball(g, adj, {"a"}, 1) == {"a"} && Layer(g, adj, {"a"}, 1) == {};
    SortedNothing();
    assert Relevance(g, adj, {"a"}, 1.0, 1) == map["a" := 2.0];
  }

  lemma LoopWalks()
    ensures SumTo(WalksUpTo(LOOPING, LOOP, {"a"}, 2), 1.0, "a") == 3.0
  {
    hide Sorted, SumTo, Value, ExtendAll;
    var g, adj := LOOPING, LOOP;
    var w0 := Walk("a", []);
    var w1 := Snoc(w0, ("a", 1.0));
    var w2 := Snoc(w1, ("a", 1.0));
    StartOne(g, adj);
    OneWalk(g, adj, w0);
    OneWalk(g, adj, w1);
    assert Walks(g, adj, {"a"}, 1) == [w1] && Walks(g, adj, {"a"}, 2) == [w2];
    ValueExtended(w0, ("a", 1.0), 1.0);
    ValueExtended(w1, ("a", 1.0), 1.0);
    NoSteps(w0);
    SumNone(1.0, "a");
    SumSnoc([], w0, 1.0, "a");
    SumSnoc([w0], w1, 1.0, "a");
    SumSnoc([w0, w1], w2, 1.0, "a");
    assert [] + [w0] == [w0] && [w0] + [w1] == [w0, w1];
  }

  lemma NoSteps(w: Walk)
    ensures w.steps == [] ==> Value(w, 1.0) == 1.0
  {
  }

  lemma SumNone(decay: real, v: NodeId)
    ensures SumTo([], decay, v) == 0.0
  {
  }

  lemma StartOne(g: Graph, adj: Adjacency)
    ensures Walks(g, adj, {"a"}, 0) == [Walk("a", [])]
  {
    hide Sorted;
    SortedOne("a");
    assert ["a"][..0] == [];
    assert Starts(["a"]) == [] + [Walk("a", [])];
  }

  lemma OneWalk(g: Graph, adj: Adjacency, w: Walk)
    requires ChildrenOf(adj, End(w)) == [("a", 1.0)] && !Dead(g, "a")
    ensures ExtendAll(g, adj, [w]) == [Snoc(w, ("a", 1.0))]
  {
    var children: seq<(NodeId, real)> := [("a", 1.0)];
    assert [w][..0] == [] && children[..0] == [];
    assert Extend(g, w, children) == [] + [Snoc(w, ("a", 1.0))];
    assert ExtendAll(g, adj, [w]) == [] + Extend(g, w, children);
  }

  lemma SortedOne(id: NodeId)
    ensures Sorted({id}) == [id]
  {
    var s := Sorted({id});
    forall i | 0 <= i < |s|
      ensures s[i] == id
    {
      assert s[i] in s;
    }
    assert id in s;
    if |s| > 1 {
      BeforeAsymmetric(s[0], s[1]);
    }
  }
}
