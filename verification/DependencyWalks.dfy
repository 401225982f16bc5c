/** Walks along dependency edges from a set of seeds: their values, and enumerations of them in which a
    walk occurs once for every way of choosing among parallel edges. */
module DependencyWalks {
  import opened Names
  import opened CausalCone

  /** A walk: a seed, and the edges followed, each with its weight. */
  datatype Walk = Walk(start: NodeId, steps: seq<(NodeId, real)>)

  function End(w: Walk): NodeId
  {
    if w.steps == [] then w.start else w.steps[|w.steps| - 1].0
  }

  function Init(w: Walk): Walk
    requires w.steps != []
  {
    Walk(w.start, w.steps[..|w.steps| - 1])
  }

  function Last(w: Walk): (NodeId, real)
    requires w.steps != []
  {
    w.steps[|w.steps| - 1]
  }

  function Snoc(w: Walk, c: (NodeId, real)): Walk
  {
    Walk(w.start, w.steps + [c])
  }

  /** The node reached after `i` steps. */
  function NodeAt(w: Walk, i: nat): NodeId
    requires i <= |w.steps|
  {
    if i == 0 then w.start else w.steps[i - 1].0
  }

  /** The product of decay times weight along the walk. */
  function Value(w: Walk, decay: real): real
    decreases |w.steps|
  {
    if w.steps == [] then 1.0 else Times(Times(Value(Init(w), decay), decay), Last(w).1)
  }

  predicate StepHolds(g: Graph, adj: Adjacency, from: NodeId, c: (NodeId, real))
  {
    c in ChildrenOf(adj, from) && !Dead(g, c.0)
  }

  /** Every step follows a dependency edge to a node that is not dead. */
  ghost predicate IsWalk(g: Graph, adj: Adjacency, w: Walk)
  {
    forall i | 0 <= i < |w.steps| :: StepHolds(g, adj, NodeAt(w, i), w.steps[i])
  }

  /** A walk from one of the seeds. */
  ghost predicate FromSeed(g: Graph, adj: Adjacency, seeds: set<NodeId>, w: Walk)
  {
    w.start in seeds && IsWalk(g, adj, w)
  }

  /** The summed value of the walks that end in `v`. */
  function SumTo(ws: seq<Walk>, decay: real, v: NodeId): real
  {
    if ws == [] then 0.0
    else
      var n := |ws| - 1;
      SumTo(ws[..n], decay, v) + if End(ws[n]) == v then Value(ws[n], decay) else 0.0
  }

  // ----- enumerating walks -----

  function Starts(ids: seq<NodeId>): seq<Walk>
  {
    if ids == [] then [] else Starts(ids[..|ids| - 1]) + [Walk(ids[|ids| - 1], [])]
  }

  function Extend(g: Graph, w: Walk, children: seq<(NodeId, real)>): seq<Walk>
  {
    if children == [] then []
    else
      var n := |children| - 1;
      var ws := Extend(g, w, children[..n]);
      if Dead(g, children[n].0) then ws else ws + [Snoc(w, children[n])]
  }

  /** One more step on those walks that end in `p`. */
  function Through(g: Graph, adj: Adjacency, ws: seq<Walk>, p: NodeId): seq<Walk>
  {
    if ws == [] then []
    else
      var n := |ws| - 1;
      var rest := Through(g, adj, ws[..n], p);
      if End(ws[n]) == p then rest + Extend(g, ws[n], ChildrenOf(adj, p)) else rest
  }

  /** One more step on every walk. */
  function ExtendAll(g: Graph, adj: Adjacency, ws: seq<Walk>): seq<Walk>
  {
    if ws == [] then []
    else
      var n := |ws| - 1;
      ExtendAll(g, adj, ws[..n]) + Extend(g, ws[n], ChildrenOf(adj, End(ws[n])))
  }

  /** The walks of `k` edges. */
  function Walks(g: Graph, adj: Adjacency, seeds: set<NodeId>, k: nat): seq<Walk>
  {
    if k == 0 then Starts(Sorted(seeds)) else ExtendAll(g, adj, Walks(g, adj, seeds, k - 1))
  }

  /** The walks of at most `k` edges. */
  function WalksUpTo(g: Graph, adj: Adjacency, seeds: set<NodeId>, k: nat): seq<Walk>
  {
    if k == 0 then Walks(g, adj, seeds, 0) else WalksUpTo(g, adj, seeds, k - 1) + Walks(g, adj, seeds, k)
  }

  // ----- how often a walk occurs -----

  /** In how many ways the steps can be chosen: parallel edges of one weight are told apart. */
  function Ways(adj: Adjacency, w: Walk): nat
    decreases |w.steps|
  {
    if w.steps == [] then 1 else Ways(adj, Init(w)) * multiset(ChildrenOf(adj, End(Init(w))))[Last(w)]
  }

  lemma WalkByStep(g: Graph, adj: Adjacency, x: Walk)
    requires x.steps != []
    ensures IsWalk(g, adj, x) <==> IsWalk(g, adj, Init(x)) && StepHolds(g, adj, End(Init(x)), Last(x))
  {
    hide StepHolds;
    var w, n := Init(x), |x.steps| - 1;
    assert NodeAt(x, n) == End(w);
    assert forall i | 0 <= i < n :: w.steps[i] == x.steps[i] && NodeAt(w, i) == NodeAt(x, i);
    if IsWalk(g, adj, w) && StepHolds(g, adj, End(w), Last(x)) {
      forall i | 0 <= i < |x.steps|
        ensures StepHolds(g, adj, NodeAt(x, i), x.steps[i])
      {
        if i < n {
          assert StepHolds(g, adj, NodeAt(w, i), w.steps[i]);
        }
      }
    }
  }

  lemma EmptyWalk(g: Graph, adj: Adjacency, x: Walk)
    requires x.steps == []
    ensures IsWalk(g, adj, x)
  {
  }

  lemma NoStepsWays(adj: Adjacency, x: Walk)
    ensures x.steps == [] ==> Ways(adj, x) == 1
  {
  }

  lemma {:induction false} WaysPositive(g: Graph, adj: Adjacency, x: Walk)
    requires IsWalk(g, adj, x)
    ensures Ways(adj, x) > 0
    decreases |x.steps|
  {
    hide IsWalk;
    if x.steps == [] {
    } else {
      WalkByStep(g, adj, x);
      WaysPositive(g, adj, Init(x));
      assert multiset(ChildrenOf(adj, End(Init(x))))[Last(x)] > 0;
    }
  }

  lemma Counting<T>(s: seq<T>, y: T, x: T)
    ensures multiset(s + [y])[x] == multiset(s)[x] + if x == y then 1 else 0
  {
  }

  lemma SnocParts(w: Walk, c: (NodeId, real))
    ensures Snoc(w, c).steps != [] && Init(Snoc(w, c)) == w && Last(Snoc(w, c)) == c
  {
  }

  lemma {:induction false} StartsCount(ids: seq<NodeId>, x: Walk)
    requires Distinct(ids)
    ensures multiset(Starts(ids))[x] == if x.steps == [] && x.start in ids then 1 else 0
  {
    if ids == [] {
    } else {
      var n := |ids| - 1;
      StartsCount(ids[..n], x);
      Counting(Starts(ids[..n]), Walk(ids[n], []), x);
      assert ids == ids[..n] + [ids[n]];
    }
  }

  lemma {:induction false} ExtendCount(g: Graph, w: Walk, children: seq<(NodeId, real)>, x: Walk)
    ensures multiset(Extend(g, w, children))[x]
            == if x.steps != [] && Init(x) == w && !Dead(g, Last(x).0) then multiset(children)[Last(x)] else 0
  {
    hide Dead, Init, Last, Snoc;
    if children == [] {
    } else {
      var n := |children| - 1;
      var c := children[n];
      ExtendCount(g, w, children[..n], x);
      SnocParts(w, c);
      SnocBack(x);
      Counting(Extend(g, w, children[..n]), Snoc(w, c), x);
      assert children == children[..n] + [c];
      if x.steps != [] {
        Counting(children[..n], c, Last(x));
      }
    }
  }

  lemma SnocBack(x: Walk)
    ensures x.steps != [] ==> Snoc(Init(x), Last(x)) == x
  {
  }

  /** How often the last step of `x` can be taken. */
  function LastWays(g: Graph, adj: Adjacency, x: Walk): nat
    requires x.steps != []
  {
    if Dead(g, Last(x).0) then 0 else multiset(ChildrenOf(adj, End(Init(x))))[Last(x)]
  }

  lemma {:induction false} ThroughCount(g: Graph, adj: Adjacency, ws: seq<Walk>, p: NodeId, x: Walk)
    ensures multiset(Through(g, adj, ws, p))[x]
            == if x.steps != [] && End(Init(x)) == p then multiset(ws)[Init(x)] * LastWays(g, adj, x) else 0
  {
    hide Dead, Extend, End;
    if ws == [] {
    } else {
      var n := |ws| - 1;
      ThroughCount(g, adj, ws[..n], p, x);
      ExtendCount(g, ws[n], ChildrenOf(adj, p), x);
      SplitCount(ws, x);
      assert multiset(Through(g, adj, ws[..n], p) + Extend(g, ws[n], ChildrenOf(adj, p)))[x]
          == multiset(Through(g, adj, ws[..n], p))[x] + multiset(Extend(g, ws[n], ChildrenOf(adj, p)))[x];
      if x.steps != [] {
        OneMore(multiset(ws[..n])[Init(x)], LastWays(g, adj, x));
      }
    }
  }

  lemma {:induction false} ExtendAllCount(g: Graph, adj: Adjacency, ws: seq<Walk>, x: Walk)
    ensures multiset(ExtendAll(g, adj, ws))[x]
            == if x.steps != [] then multiset(ws)[Init(x)] * LastWays(g, adj, x) else 0
  {
    hide Dead, Extend, End;
    if ws == [] {
    } else {
      var n := |ws| - 1;
      ExtendAllCount(g, adj, ws[..n], x);
      ExtendCount(g, ws[n], ChildrenOf(adj, End(ws[n])), x);
      SplitCount(ws, x);
      if x.steps != [] {
        OneMore(multiset(ws[..n])[Init(x)], LastWays(g, adj, x));
      }
    }
  }

  lemma SplitCount(ws: seq<Walk>, x: Walk)
    requires ws != []
    ensures var n := |ws| - 1;
            x.steps != [] ==> multiset(ws)[Init(x)] == multiset(ws[..n])[Init(x)] + if ws[n] == Init(x) then 1 else 0
  {
    hide Init;
    if x.steps != [] {
      assert ws == ws[..|ws| - 1] + [ws[|ws| - 1]];
      Counting(ws[..|ws| - 1], ws[|ws| - 1], Init(x));
    }
  }

  lemma OneMore(m: nat, c: nat)
    ensures (m + 1) * c == m * c + c
  {
  }

  /** A walk of `k` edges from a seed occurs once for every way to choose its edges, and nothing else
      occurs. */
  lemma {:induction false} WalksCount(g: Graph, adj: Adjacency, seeds: set<NodeId>, k: nat, x: Walk)
    ensures multiset(Walks(g, adj, seeds, k))[x]
            == if FromSeed(g, adj, seeds, x) && |x.steps| == k then Ways(adj, x) else 0
  {
    hide Dead, End, ExtendAll, IsWalk, Sorted, Starts, Distinct, Ways, LastWays;
    if k == 0 {
      NoStepsWays(adj, x);
      SortedDistinct(seeds);
      StartsCount(Sorted(seeds), x);
      if x.steps == [] {
        EmptyWalk(g, adj, x);
      }
    } else {
      ExtendAllCount(g, adj, Walks(g, adj, seeds, k - 1), x);
      if x.steps != [] {
        WalksCount(g, adj, seeds, k - 1, Init(x));
        WalkByStep(g, adj, x);
        LastTakes(g, adj, x, multiset(Walks(g, adj, seeds, k - 1))[Init(x)]);
      }
    }
  }

  /** A last step that is no edge, or leads to a dead node, takes all ways away; otherwise it multiplies. */
  lemma LastTakes(g: Graph, adj: Adjacency, x: Walk, m: nat)
    requires x.steps != []
    ensures !StepHolds(g, adj, End(Init(x)), Last(x)) ==> m * LastWays(g, adj, x) == 0
    ensures !Dead(g, Last(x).0) && m == Ways(adj, Init(x)) ==> m * LastWays(g, adj, x) == Ways(adj, x)
    ensures m == 0 ==> m * LastWays(g, adj, x) == 0
  {
  }

  lemma {:induction false} WalksUpToCount(g: Graph, adj: Adjacency, seeds: set<NodeId>, k: nat, x: Walk)
    ensures multiset(WalksUpTo(g, adj, seeds, k))[x]
            == if FromSeed(g, adj, seeds, x) && |x.steps| <= k then Ways(adj, x) else 0
  {
    hide Walks, FromSeed, Ways;
    WalksCount(g, adj, seeds, k, x);
    if k == 0 {
    } else {
      WalksUpToCount(g, adj, seeds, k - 1, x);
    }
  }

  /** The enumeration holds every walk of at most `k` dependency edges from a seed and nothing else. */
  lemma WalksAreAll(g: Graph, adj: Adjacency, seeds: set<NodeId>, k: nat, x: Walk)
    ensures x in WalksUpTo(g, adj, seeds, k) <==> FromSeed(g, adj, seeds, x) && |x.steps| <= k
  {
    hide WalksUpTo, IsWalk, Ways;
    WalksUpToCount(g, adj, seeds, k, x);
    if FromSeed(g, adj, seeds, x) {
      WaysPositive(g, adj, x);
    }
    assert x in WalksUpTo(g, adj, seeds, k) <==> multiset(WalksUpTo(g, adj, seeds, k))[x] > 0;
  }

  // ----- sums -----

  lemma {:induction false} SumAppends(a: seq<Walk>, b: seq<Walk>, decay: real, v: NodeId)
    ensures SumTo(a + b, decay, v) == SumTo(a, decay, v) + SumTo(b, decay, v)
  {
    hide Value, End;
    if b == [] {
      assert a + b == a;
    } else {
      var n := |b| - 1;
      assert (a + b)[..|a| + n] == a + b[..n];
      SumAppends(a, b[..n], decay, v);
    }
  }

  lemma SumTakesOut(ws: seq<Walk>, i: nat, decay: real, v: NodeId)
    requires i < |ws|
    ensures SumTo(ws, decay, v) == SumTo(ws[..i] + ws[i + 1..], decay, v)
                                  + if End(ws[i]) == v then Value(ws[i], decay) else 0.0
  {
    hide Value, End;
    SumAppends(ws[..i + 1], ws[i + 1..], decay, v);
    SumAppends(ws[..i], ws[i + 1..], decay, v);
    assert ws[..i + 1] + ws[i + 1..] == ws && ws[..i + 1][..i] == ws[..i];
  }

  lemma {:induction false} SumIgnoresOrder(a: seq<Walk>, b: seq<Walk>, decay: real, v: NodeId)
    requires multiset(a) == multiset(b)
    ensures SumTo(a, decay, v) == SumTo(b, decay, v)
    decreases |a|
  {
    hide SumTo, Value, End;
    assert |multiset(a)| == |a| && |multiset(b)| == |b|;
    if a != [] {
      var n := |a| - 1;
      assert a[n] in multiset(b);
      var i :| 0 <= i < |b| && b[i] == a[n];
      SumTakesOut(a, n, decay, v);
      SumTakesOut(b, i, decay, v);
      TakenOut(a, n);
      TakenOut(b, i);
      SumIgnoresOrder(a[..n] + a[n + 1..], b[..i] + b[i + 1..], decay, v);
    } else {
      assert a == b;
    }
  }

  lemma TakenOut(ws: seq<Walk>, i: nat)
    requires i < |ws|
    ensures multiset(ws[..i] + ws[i + 1..]) == multiset(ws) - multiset{ws[i]} && |ws[..i] + ws[i + 1..]| == |ws| - 1
  {
    assert ws == ws[..i] + [ws[i]] + ws[i + 1..];
  }
}
