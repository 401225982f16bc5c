/** The window read from a cone: its resident nodes, the ring of their callers, in reading order, cut
    down to a budget at the callers' expense. */
module ConeWindow {
  import opened Options
  import opened Names
  import opened Sorting
  import opened CausalCone
  import ConeRelevance
  import DependencyWalks

  datatype Role = Seed | Dependency | Caller

  datatype Entry = Entry(id: NodeId, state: NodeState, trust: real, role: Role, depth: nat, relevance: real)

  datatype Config = Config(horizon: nat, decay: real, includeCallers: bool, maxNodes: Option<nat>)

  datatype Window = Window(nodes: seq<Entry>, complete: bool, omitted: nat, seedCount: nat)

  function HalfTo(n: nat): (r: real)
    ensures r > 0.0
  {
    if n == 0 then 1.0 else HalfTo(n - 1) / 2.0
  }

  /** Into `[f64::MIN_POSITIVE, 1]`. */
  function ClampDecay(decay: real): real
  {
    if decay < HalfTo(1022) then HalfTo(1022) else if decay > 1.0 then 1.0 else decay
  }

  /** A cone as traversed: depths and relevance by node. */
  datatype Cone = Cone(g: Graph, adj: Adjacency, seeds: set<NodeId>, decay: real, includeCallers: bool,
                       depth: map<NodeId, nat>, relevance: map<NodeId, real>)

  /** The cone nodes that a node calls into. */
  function CalledBy(c: Cone, id: NodeId): set<NodeId>
  {
    set v | v in c.depth && id in CallersOf(c.adj, v)
  }

  predicate InRing(c: Cone, id: NodeId)
  {
    id !in c.depth && id in c.g.nodes && !Dead(c.g, id) && CalledBy(c, id) != {}
  }

  function ConeEntry(c: Cone, id: NodeId): Entry
    requires id in c.depth && id in c.g.nodes
  {
    Entry(id, c.g.nodes[id].state, c.g.nodes[id].trust,
          if id in c.seeds then Seed else Dependency, c.depth[id], At(c.relevance, id))
  }

  /** A caller takes its place from the first cone node it calls, in id order. */
  function CallerEntry(c: Cone, id: NodeId, of: NodeId): Entry
    requires of in c.depth && id in c.g.nodes
  {
    Entry(id, c.g.nodes[id].state, c.g.nodes[id].trust, Caller, c.depth[of], Times(At(c.relevance, of), c.decay))
  }

  /** The entry a node has in the unbudgeted window, if it has one. */
  function Expected(c: Cone, id: NodeId): Option<Entry>
  {
    if id in c.depth then if id in c.g.nodes then Some(ConeEntry(c, id)) else None
    else if c.includeCallers && InRing(c, id) then Some(CallerEntry(c, id, First(CalledBy(c, id))))
    else None
  }

  ghost predicate NoRepeats(s: seq<Entry>)
  {
    forall e :: multiset(s)[e] <= 1
  }

  /** Exactly the expected entries, each once. */
  ghost predicate Assembled(c: Cone, out: seq<Entry>)
  {
    NoRepeats(out) && forall e :: e in out <==> Expected(c, e.id) == Some(e)
  }

  lemma AppendNew(s: seq<Entry>, x: Entry)
    requires NoRepeats(s) && x !in s
    ensures NoRepeats(s + [x]) && forall e :: e in s + [x] <==> e in s || e == x
  {
    assert multiset(s)[x] == 0;
  }

  method ConeEntries(c: Cone) returns (out: seq<Entry>)
    ensures NoRepeats(out) && forall e :: e in out <==> e.id in c.depth && Expected(c, e.id) == Some(e)
  {
    hide NoRepeats, Sorted, First, Dead;
    var ids := Sorted(c.depth.Keys);
    SortedDistinct(c.depth.Keys);
    out := [];
    NothingRepeats();
    for i := 0 to |ids|
      invariant NoRepeats(out)
      invariant forall e :: e in out <==> e.id in ids[..i] && Expected(c, e.id) == Some(e)
    {
      assert ids[i] in ids;
      assert forall x :: x in ids[..i + 1] <==> x in ids[..i] || x == ids[i];
      if ids[i] !in c.g.nodes {
        continue;
      }
      assert ids[i] !in ids[..i];
      AppendNew(out, ConeEntry(c, ids[i]));
      out := out + [ConeEntry(c, ids[i])];
    }
    assert ids[..|ids|] == ids;
  }

  lemma NothingRepeats()
    ensures NoRepeats([])
  {
  }

  /** The ring members already added when the first `i` cone nodes, and `j` callers of the next, are done. */
  ghost predicate RingSoFar(c: Cone, ids: seq<NodeId>, i: nat, j: nat, added: set<NodeId>)
    requires i < |ids| && j <= |CallersOf(c.adj, ids[i])|
  {
    forall id :: id in added <==> InRing(c, id) && (CalledEarlier(c, ids, i, id) || id in CallersOf(c.adj, ids[i])[..j])
  }

  ghost predicate CalledEarlier(c: Cone, ids: seq<NodeId>, i: nat, id: NodeId)
    requires i <= |ids|
  {
    exists k :: 0 <= k < i && id in CallersOf(c.adj, ids[k])
  }

  lemma FirstCalled(c: Cone, i: nat, id: NodeId)
    requires var ids := Sorted(c.depth.Keys);
             i < |ids| && id in CallersOf(c.adj, ids[i]) && !CalledEarlier(c, ids, i, id)
    ensures CalledBy(c, id) != {} && First(CalledBy(c, id)) == Sorted(c.depth.Keys)[i]
  {
    hide Sorted, Before, CallersOf;
    var ids := Sorted(c.depth.Keys);
    var calls := CalledBy(c, id);
    assert ids[i] in ids;
    assert ids[i] in calls;
    forall x | x in calls && x != ids[i]
      ensures Before(ids[i], x)
    {
      assert x in ids;
      var k :| 0 <= k < |ids| && ids[k] == x;
      assert k >= i;
    }
    assert IsFirst(calls, ids[i]);
    FirstUnique(calls);
  }

  /** Add the callers of one cone node that are new. */
  method AddCallers(c: Cone, i: nat, out: seq<Entry>, added: set<NodeId>) returns (out': seq<Entry>,
                    added': set<NodeId>)
    requires c.includeCallers && i < |Sorted(c.depth.Keys)|
    requires NoRepeats(out)
      && forall e :: e in out <==> (e.id in c.depth || e.id in added) && Expected(c, e.id) == Some(e)
    requires forall id :: id in added <==> InRing(c, id) && CalledEarlier(c, Sorted(c.depth.Keys), i, id)
    ensures NoRepeats(out')
      && forall e :: e in out' <==> (e.id in c.depth || e.id in added') && Expected(c, e.id) == Some(e)
    ensures forall id :: id in added' <==> InRing(c, id) && CalledEarlier(c, Sorted(c.depth.Keys), i + 1, id)
  {
    hide NoRepeats, Sorted, First, CalledEarlier, CallersOf;
    var ids := Sorted(c.depth.Keys);
    var callers := CallersOf(c.adj, ids[i]);
    assert ids[i] in ids;
    out', added' := out, added;
    for j := 0 to |callers|
      invariant NoRepeats(out')
        && forall e :: e in out' <==> (e.id in c.depth || e.id in added') && Expected(c, e.id) == Some(e)
      invariant RingSoFar(c, ids, i, j, added')
    {
      var caller := callers[j];
      assert forall x :: x in callers[..j + 1] <==> x in callers[..j] || x == caller;
      assert ids[i] in CalledBy(c, caller);
      if caller in c.depth || caller in added' || caller !in c.g.nodes || Dead(c.g, caller) {
        continue;
      }
      FirstCalled(c, i, caller);
      var entry := CallerEntry(c, caller, ids[i]);
      assert entry !in out';
      AppendNew(out', entry);
      out' := out' + [entry];
      added' := added' + {caller};
    }
    assert callers[..|callers|] == callers;
    CalledOneLater(c, ids, i);
  }

  lemma CalledOneLater(c: Cone, ids: seq<NodeId>, i: nat)
    requires i < |ids|
    ensures forall id ::
              CalledEarlier(c, ids, i + 1, id) <==> CalledEarlier(c, ids, i, id) || id in CallersOf(c.adj, ids[i])
    ensures forall id :: !CalledEarlier(c, ids, 0, id)
  {
    hide CallersOf;
    forall id
      ensures CalledEarlier(c, ids, i + 1, id) <==> CalledEarlier(c, ids, i, id) || id in CallersOf(c.adj, ids[i])
    {
      if CalledEarlier(c, ids, i + 1, id) {
        var k :| 0 <= k < i + 1 && id in CallersOf(c.adj, ids[k]);
      }
    }
  }

  method Assemble(c: Cone) returns (out: seq<Entry>)
    ensures Assembled(c, out)
  {
    hide NoRepeats, Sorted, First, CalledEarlier;
    out := ConeEntries(c);
    if c.includeCallers {
      var ids := Sorted(c.depth.Keys);
      var added: set<NodeId> := {};
      NoneCalledYet(c, ids);
      for i := 0 to |ids|
        invariant NoRepeats(out)
          && forall e :: e in out <==> (e.id in c.depth || e.id in added) && Expected(c, e.id) == Some(e)
        invariant forall id :: id in added <==> InRing(c, id) && CalledEarlier(c, ids, i, id)
      {
        out, added := AddCallers(c, i, out, added);
      }
      AllCalled(c);
    }
  }

  lemma NoneCalledYet(c: Cone, ids: seq<NodeId>)
    ensures forall id :: !CalledEarlier(c, ids, 0, id)
  {
  }

  lemma AllCalled(c: Cone)
    ensures var ids := Sorted(c.depth.Keys);
            forall id | InRing(c, id) :: CalledEarlier(c, ids, |ids|, id)
  {
    hide Sorted, CallersOf;
    var ids := Sorted(c.depth.Keys);
    forall id | InRing(c, id)
      ensures CalledEarlier(c, ids, |ids|, id)
    {
      var v :| v in CalledBy(c, id);
      assert v in ids;
      var k :| 0 <= k < |ids| && ids[k] == v;
    }
  }

  // ----- reading order -----

  function Rank(r: Role): nat
  {
    match r
    case Seed => 0
    case Dependency => 1
    case Caller => 2
  }

  /** Seeds, then dependencies, then callers; nearer first, then more relevant, then by id. */
  predicate ReadsBefore(a: Entry, b: Entry)
  {
    if Rank(a.role) != Rank(b.role) then Rank(a.role) < Rank(b.role)
    else if a.depth != b.depth then a.depth < b.depth
    else if a.relevance != b.relevance then a.relevance > b.relevance
    else UpTo(a.id, b.id)
  }

  lemma UpToOrders()
    ensures forall a, b :: UpTo(a, b) || UpTo(b, a)
    ensures forall a, b, c :: UpTo(a, b) && UpTo(b, c) ==> UpTo(a, c)
  {
    hide Before;
    forall a, b
      ensures UpTo(a, b) || UpTo(b, a)
    {
      BeforeTotal(a, b);
    }
    forall a, b, c | UpTo(a, b) && UpTo(b, c)
      ensures UpTo(a, c)
    {
      if a != b && b != c {
        BeforeTransitive(a, b, c);
      }
    }
  }

  lemma ReadingOrders()
    ensures TotalPreorder(ReadsBefore)
  {
    hide UpTo, Rank;
    UpToOrders();
    UpToReflexive();
  }

  lemma UpToReflexive()
    ensures forall a :: UpTo(a, a)
  {
  }

  // ----- the budget -----

  /** Dropped first: less relevant, then by id. */
  predicate Cheaper(a: Entry, b: Entry)
  {
    if a.relevance != b.relevance then a.relevance < b.relevance else UpTo(a.id, b.id)
  }

  lemma CheaperOrders()
    ensures TotalPreorder(Cheaper)
  {
    hide UpTo;
    UpToOrders();
  }

  /** The budgeted window keeps every seed and dependency, and drops the cheapest callers until the cap
      is met or no caller is left. */
  ghost predicate Budgeted(full: seq<Entry>, kept: seq<Entry>, cap: Option<nat>)
  {
    && (cap.None? || |full| <= cap.value ==> kept == full)
    && (forall e | e in kept :: e in full)
    && (forall e | e in full && !e.role.Caller? :: e in kept)
    && (cap.Some? && |full| > cap.value
        ==> |kept| == cap.value || (|kept| > cap.value && forall e | e in kept :: !e.role.Caller?))
    && (forall e, k | e in full && e !in kept && k in kept && k.role.Caller? :: Cheaper(e, k))
  }

  function CallersIn(out: seq<Entry>): seq<Entry>
  {
    if out == [] then []
    else
      var last := out[|out| - 1];
      CallersIn(out[..|out| - 1]) + if last.role.Caller? then [last] else []
  }

  lemma {:induction false} CallersInHold(out: seq<Entry>)
    ensures forall e :: e in CallersIn(out) <==> e in out && e.role.Caller?
    ensures forall e :: multiset(CallersIn(out))[e] <= multiset(out)[e]
  {
    if out == [] {
    } else {
      CallersInHold(out[..|out| - 1]);
      assert out == out[..|out| - 1] + [out[|out| - 1]];
    }
  }

  function Keep(out: seq<Entry>, drop: set<Entry>): seq<Entry>
  {
    if out == [] then []
    else
      var last := out[|out| - 1];
      Keep(out[..|out| - 1], drop) + if last in drop then [] else [last]
  }

  lemma {:induction false} KeepHolds(out: seq<Entry>, drop: set<Entry>)
    ensures forall e :: e in Keep(out, drop) <==> e in out && e !in drop
    ensures forall e :: multiset(Keep(out, drop))[e] <= multiset(out)[e]
  {
    if out == [] {
    } else {
      KeepHolds(out[..|out| - 1], drop);
      assert out == out[..|out| - 1] + [out[|out| - 1]];
    }
  }

  lemma {:induction false} KeepSize(out: seq<Entry>, drop: set<Entry>)
    requires NoRepeats(out)
    ensures |Keep(out, drop)| == |out| - |set e | e in out && e in drop|
  {
    hide NoRepeats;
    if out == [] {
    } else {
      var n := |out| - 1;
      NoRepeatsInit(out);
      KeepSize(out[..n], drop);
      assert forall e :: e in out <==> e in out[..n] || e == out[n];
      var before, now := set e | e in out[..n] && e in drop, set e | e in out && e in drop;
      assert now == if out[n] in drop then before + {out[n]} else before;
    }
  }

  lemma NoRepeatsInit(s: seq<Entry>)
    requires s != [] && NoRepeats(s)
    ensures NoRepeats(s[..|s| - 1]) && s[|s| - 1] !in s[..|s| - 1]
  {
    var n := |s| - 1;
    assert s == s[..n] + [s[n]];
    assert multiset(s)[s[n]] == multiset(s[..n])[s[n]] + 1;
    assert forall e :: multiset(s[..n])[e] <= multiset(s)[e];
    assert s[n] in s[..n] <==> multiset(s[..n])[s[n]] > 0;
  }

  lemma {:induction false} KeepOrdered(out: seq<Entry>, drop: set<Entry>)
    requires Ordered(out, ReadsBefore)
    ensures Ordered(Keep(out, drop), ReadsBefore)
  {
    hide ReadsBefore;
    if out == [] {
    } else {
      var n := |out| - 1;
      KeepOrdered(out[..n], drop);
      KeepHolds(out[..n], drop);
      var kept := Keep(out[..n], drop);
      forall i | 0 <= i < |kept|
        ensures ReadsBefore(kept[i], out[n])
      {
        assert kept[i] in kept;
      }
    }
  }

  lemma {:induction false} SetSize(s: seq<Entry>)
    requires NoRepeats(s)
    ensures |set e | e in s| == |s|
  {
    hide NoRepeats;
    if s != [] {
      var n := |s| - 1;
      NoRepeatsInit(s);
      SetSize(s[..n]);
      assert s == s[..n] + [s[n]];
      assert (set e | e in s) == (set e | e in s[..n]) + {s[n]};
    } else {
      assert (set e | e in s) == {};
    }
  }

  /** Drop the first of the sorted callers, as many as needed and available. */
  method Budget(out: seq<Entry>, cap: nat) returns (kept: seq<Entry>, dropped: nat)
    requires NoRepeats(out) && Ordered(out, ReadsBefore)
    ensures Budgeted(out, kept, Some(cap)) && dropped == |out| - |kept|
    ensures NoRepeats(kept) && Ordered(kept, ReadsBefore)
  {
    hide NoRepeats, Ordered, ReadsBefore, Cheaper, SortBy;
    kept, dropped := out, 0;
    if |out| > cap {
      var callers := GatherCallers(out);
      callers := SortBy(callers, Cheaper);
      var need := |out| - cap;
      var count := if need < |callers| then need else |callers|;
      var drop := set e | e in callers[..count];
      KeepHolds(out, drop);
      KeepSize(out, drop);
      KeepOrdered(out, drop);
      DropFacts(out, callers, count);
      dropped := |drop|;
      kept := KeepRest(out, drop);
    }
  }

  method GatherCallers(out: seq<Entry>) returns (callers: seq<Entry>)
    ensures callers == CallersIn(out)
  {
    callers := [];
    for i := 0 to |out|
      invariant callers == CallersIn(out[..i])
    {
      assert out[..i + 1][..i] == out[..i];
      if out[i].role.Caller? {
        callers := callers + [out[i]];
      }
    }
    assert out[..|out|] == out;
  }

  method KeepRest(out: seq<Entry>, drop: set<Entry>) returns (kept: seq<Entry>)
    ensures kept == Keep(out, drop)
  {
    kept := [];
    for i := 0 to |out|
      invariant kept == Keep(out[..i], drop)
    {
      assert out[..i + 1][..i] == out[..i];
      if out[i] !in drop {
        kept := kept + [out[i]];
      }
    }
    assert out[..|out|] == out;
  }

  lemma PrefixCheaper(callers: seq<Entry>, count: nat, e: Entry, k: Entry)
    requires Ordered(callers, Cheaper) && count <= |callers|
    requires e in callers[..count] && k in callers && k !in callers[..count]
    ensures Cheaper(e, k)
  {
    hide Cheaper;
    var a :| 0 <= a < count && callers[..count][a] == e;
    var b :| 0 <= b < |callers| && callers[b] == k;
    assert forall i | 0 <= i < count :: callers[..count][i] == callers[i];
  }

  lemma PrefixNoRepeats(s: seq<Entry>, t: seq<Entry>, count: nat)
    requires NoRepeats(s) && count <= |t| && forall e :: multiset(t)[e] <= multiset(s)[e]
    ensures NoRepeats(t[..count])
  {
    assert t == t[..count] + t[count..];
    assert forall e :: multiset(t[..count])[e] <= multiset(t)[e];
  }

  lemma KeepNoRepeats(out: seq<Entry>, drop: set<Entry>)
    requires NoRepeats(out)
    ensures NoRepeats(Keep(out, drop))
  {
    hide Keep;
    KeepHolds(out, drop);
  }

  lemma DropFacts(out: seq<Entry>, callers: seq<Entry>, count: nat)
    requires NoRepeats(out) && callers == SortBy(CallersIn(out), Cheaper) && count <= |callers|
    ensures var drop := set e | e in callers[..count];
            && |drop| == count == |set e | e in out && e in drop|
            && NoRepeats(Keep(out, drop))
            && (forall e | e in drop :: e in out && e.role.Caller?)
            && (count == |callers| ==> forall e | e in out && e.role.Caller? :: e in drop)
            && (forall e, k | e in drop && k in out && k !in drop && k.role.Caller? :: Cheaper(e, k))
  {
    hide Cheaper, SortBy, CallersIn, Keep, NoRepeats, Ordered;
    var drop := set e | e in callers[..count];
    CallersInHold(out);
    SortKeeps(CallersIn(out), Cheaper);
    SameMembers(CallersIn(out), callers);
    CheaperOrders();
    SortOrders(CallersIn(out), Cheaper);
    KeepNoRepeats(out, drop);
    PrefixNoRepeats(out, callers, count);
    SetSize(callers[..count]);
    assert forall e | e in callers[..count] :: e in callers;
    assert (set e | e in out && e in drop) == drop;
    assert count == |callers| ==> callers[..count] == callers;
    forall e, k | e in drop && k in out && k !in drop && k.role.Caller?
      ensures Cheaper(e, k)
    {
      PrefixCheaper(callers, count, e, k);
    }
  }

  // ----- the whole -----

  /** The window of a cone: complete exactly when the cone is closed under dependencies (or the horizon
      is zero); of the expected entries, in reading order, every seed and dependency and, if the budget
      binds, the most relevant callers; everything left out is counted. */
  method ConeCore(g: Graph, adj: Adjacency, cfg: Config, seeds: set<NodeId>)
    returns (w: Window, ghost c: Cone, ghost full: seq<Entry>)
    ensures c.g == g && c.adj == adj && c.seeds == seeds && c.decay == ClampDecay(cfg.decay)
        && c.includeCallers == cfg.includeCallers
    ensures Explored(g, adj, seeds, c.decay, cfg.horizon, c.depth, c.relevance)
    ensures w.complete <==> cfg.horizon == 0 || Closed(g, adj, c.depth.Keys)
    ensures Assembled(c, full) && Budgeted(full, w.nodes, cfg.maxNodes)
    ensures NoRepeats(w.nodes) && Ordered(w.nodes, ReadsBefore)
    ensures w.omitted == (if cfg.horizon == 0 then 0 else |Layer(g, adj, seeds, cfg.horizon + 1)|) + |full| - |w.nodes|
    ensures w.seedCount == |seeds|
  {
    hide Explored, Layer, Ball, Closed, NoRepeats, Ordered, ReadsBefore, SortBy, Expected;
    var decay := ClampDecay(cfg.decay);
    var depth, relevance, cut := Traverse(g, adj, seeds, cfg.horizon, decay);
    var cone := Cone(g, adj, seeds, decay, cfg.includeCallers, depth, relevance);
    c := cone;
    var out := Assemble(cone);
    SortKeeps(out, ReadsBefore);
    SameMembers(out, SortBy(out, ReadsBefore));
    ReadingOrders();
    SortOrders(out, ReadsBefore);
    NoRepeatsAlike(out, SortBy(out, ReadsBefore));
    out := SortBy(out, ReadsBefore);
    full := out;
    var omitted := |cut|;
    if cfg.maxNodes.Some? {
      var dropped;
      out, dropped := Budget(out, cfg.maxNodes.value);
      omitted := omitted + dropped;
    }
    w := Window(out, cut == {}, omitted, |seeds|);
  }

  lemma NoRepeatsAlike(s: seq<Entry>, t: seq<Entry>)
    requires multiset(s) == multiset(t) && NoRepeats(s)
    ensures NoRepeats(t)
  {
  }

  /** So no budget and no ring ever hides a resident cone node: the window holds it at its distance. */
  lemma ConeNodesShown(c: Cone, horizon: nat, cap: Option<nat>, full: seq<Entry>, kept: seq<Entry>, v: NodeId)
    requires Explored(c.g, c.adj, c.seeds, c.decay, horizon, c.depth, c.relevance)
    requires Assembled(c, full) && Budgeted(full, kept, cap)
    requires v in Ball(c.g, c.adj, c.seeds, horizon) && v in c.g.nodes
    ensures exists e :: e in kept && e.id == v && !e.role.Caller? && v in Layer(c.g, c.adj, c.seeds, e.depth)
  {
    hide NoRepeats, Ball, Layer, Relevance;
    var e := ConeEntry(c, v);
    assert Expected(c, v) == Some(e);
    assert e in full;
  }

  // ----- what an entry says -----

  /** The sum over the walks that the traversal counts, of decay times weight along them, up to a node. */
  ghost function Mass(c: Cone, horizon: nat, v: NodeId): real
  {
    DependencyWalks.SumTo(ConeRelevance.CountedWalks(c.g, c.adj, c.seeds, horizon), c.decay, v)
  }

  /** Of the nodes in `ball` that `id` calls, `v` is the first. */
  ghost predicate CallsFirst(adj: Adjacency, ball: set<NodeId>, id: NodeId, v: NodeId)
  {
    && v in ball && id in CallersOf(adj, v)
    && forall u | u in ball && id in CallersOf(adj, u) :: u == v || Before(v, u)
  }

  /** What every entry of the unbudgeted window, and so every entry shown, says of its node. State and trust
      are the graph's. A node of the cone stands at its distance, with the mass that reaches it, as a seed
      exactly if it is one. A caller is live and outside the cone; it takes its distance, and `decay` times
      its mass, from the first cone node it calls. */
  lemma EntriesCarry(c: Cone, horizon: nat, full: seq<Entry>, e: Entry)
    requires Explored(c.g, c.adj, c.seeds, c.decay, horizon, c.depth, c.relevance)
    requires Assembled(c, full) && e in full
    ensures e.id in c.g.nodes && e.state == c.g.nodes[e.id].state && e.trust == c.g.nodes[e.id].trust
    ensures !e.role.Caller? ==>
              && e.id in Ball(c.g, c.adj, c.seeds, horizon) && e.id in Layer(c.g, c.adj, c.seeds, e.depth)
              && (e.role.Seed? <==> e.id in c.seeds) && e.relevance == Mass(c, horizon, e.id)
    ensures e.role.Caller? ==>
              && c.includeCallers && e.id !in Ball(c.g, c.adj, c.seeds, horizon) && !e.state.Orphan?
              && exists v ::
                   && CallsFirst(c.adj, Ball(c.g, c.adj, c.seeds, horizon), e.id, v)
                   && v in Layer(c.g, c.adj, c.seeds, e.depth) && e.relevance == c.decay * Mass(c, horizon, v)
  {
    hide NoRepeats, Ball, Layer, Relevance, Before, CallersOf, First;
    assert Expected(c, e.id) == Some(e);
    if e.id in c.depth {
      ConeRelevance.RelevanceSumsCounted(c.g, c.adj, c.seeds, c.decay, horizon, e.id);
    } else {
      var v := First(CalledBy(c, e.id));
      assert IsFirst(CalledBy(c, e.id), v);
      ConeRelevance.RelevanceSumsCounted(c.g, c.adj, c.seeds, c.decay, horizon, v);
      FirstIsCalled(c, horizon, e.id, v);
      TimesIsProduct(At(c.relevance, v), c.decay);
    }
  }

  lemma FirstIsCalled(c: Cone, horizon: nat, id: NodeId, v: NodeId)
    requires c.depth.Keys == Ball(c.g, c.adj, c.seeds, horizon) && IsFirst(CalledBy(c, id), v)
    ensures CallsFirst(c.adj, Ball(c.g, c.adj, c.seeds, horizon), id, v)
  {
    hide Ball, Before, CallersOf;
    forall u | u in Ball(c.g, c.adj, c.seeds, horizon) && id in CallersOf(c.adj, u)
      ensures u == v || Before(v, u)
    {
      assert u in CalledBy(c, id);
    }
  }

  lemma TimesIsProduct(x: real, y: real)
    ensures Times(x, y) == y * x
  {
  }

  /** Every live resident caller of the cone has an entry, if callers are asked for. */
  lemma CallersShown(c: Cone, horizon: nat, full: seq<Entry>, id: NodeId, v: NodeId)
    requires Explored(c.g, c.adj, c.seeds, c.decay, horizon, c.depth, c.relevance) && Assembled(c, full)
    requires c.includeCallers && id in c.g.nodes && !c.g.nodes[id].state.Orphan?
    requires v in Ball(c.g, c.adj, c.seeds, horizon) && id in CallersOf(c.adj, v)
    requires id !in Ball(c.g, c.adj, c.seeds, horizon)
    ensures exists e :: e in full && e.id == id && e.role.Caller?
  {
    hide NoRepeats, Ball, Layer, Relevance, First, CallersOf;
    assert v in CalledBy(c, id);
    var e := CallerEntry(c, id, First(CalledBy(c, id)));
    assert Expected(c, e.id) == Some(e);
    assert e in full;
  }

  /** The reading order: seeds, then dependencies, then callers; within a role nearer first, then the more
      relevant, then by id. */
  lemma ReadInOrder(w: seq<Entry>, i: nat, j: nat)
    requires Ordered(w, ReadsBefore) && i < j < |w|
    ensures (w[i].role.Caller? ==> w[j].role.Caller?) && (w[j].role.Seed? ==> w[i].role.Seed?)
    ensures w[i].role == w[j].role ==>
              && w[i].depth <= w[j].depth
              && (w[i].depth == w[j].depth ==>
                    && w[i].relevance >= w[j].relevance
                    && (w[i].relevance == w[j].relevance ==> w[i].id == w[j].id || Before(w[i].id, w[j].id)))
  {
    hide Before;
    assert ReadsBefore(w[i], w[j]);
  }

  /** What the budget drops is a caller no more relevant than any caller kept. */
  lemma DroppedFirst(full: seq<Entry>, kept: seq<Entry>, cap: Option<nat>, e: Entry, k: Entry)
    requires Budgeted(full, kept, cap) && e in full && e !in kept
    ensures e.role.Caller?
    ensures k in kept && k.role.Caller? ==>
              e.relevance <= k.relevance && (e.relevance == k.relevance ==> e.id == k.id || Before(e.id, k.id))
  {
    hide Before;
  }

  /** A decay within the floating-point range up to one is taken as it is; others become the nearest bound. */
  lemma DecayKept(decay: real)
    ensures 0.0 < ClampDecay(decay) <= 1.0
    ensures HalfTo(1022) <= decay <= 1.0 ==> ClampDecay(decay) == decay
    ensures decay > 1.0 ==> ClampDecay(decay) == 1.0
    ensures decay < HalfTo(1022) ==> ClampDecay(decay) == HalfTo(1022)
  {
    HalvesShrink(1022);
  }

  /** Half taken `n` times: `2 * 2 * ... * HalfTo(n)` is one. */
  function Doublings(n: nat, x: real): real
  {
    if n == 0 then x else Doublings(n - 1, x + x)
  }

  lemma {:induction false} HalvesShrink(n: nat)
    ensures 0.0 < HalfTo(n) <= 1.0 && Doublings(n, HalfTo(n)) == 1.0
  {
    if n == 0 {
    } else {
      HalvesShrink(n - 1);
    }
  }
}
