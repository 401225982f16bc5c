/** A small memory that obeys the resolution laws: symbols defined by files, calls that await a definition,
    and call edges that are pruned and rebuilt. It shows that the laws can be met, which assertions settle,
    and what a snapshot must not drop. */
module CallGraph {
  import opened Options
  import opened Timeline
  import opened Replay

  /** `symbols` are the nodes that resolution reads: a file and a name it defines. `dirty` is the flag of a
      deferred ingest. */
  datatype Graph = Graph(
    symbols: set<(string, string)>,
    pending: map<string, string>,
    edges: set<(string, string)>,
    dirty: bool,
    beliefs: seq<(string, string, bool, Float)>,
    weights: seq<Float>,
    pressure: multiset<string>,
    resident: set<string>
  )

  const EMPTY := Graph({}, map[], {}, false, [], [], multiset{}, {})

  datatype Content = Defines(name: string) | Calls(name: string) | Plain

  function Parse(source: string): Content
  {
    if source == [] then Plain
    else if source[0] == 'd' then Defines(source[1..])
    else if source[0] == 'c' then Calls(source[1..])
    else Plain
  }

  /** Replace a file's symbols and its awaited call; its old edges go with it. */
  function IngestFile(m: Graph, uri: string, source: string): Graph
  {
    var pending, parsed := m.pending - {uri}, Parse(source);
    m.(symbols := (set s | s in m.symbols && s.0 != uri) + if parsed.Defines? then {(uri, parsed.name)} else {},
       pending := if parsed.Calls? then pending[uri := parsed.name] else pending,
       edges := (set e | e in m.edges && e.0 != uri && e.1 != uri),
       dirty := true)
  }

  function Definers(m: Graph, name: string): set<string>
  {
    set s | s in m.symbols && s.1 == name :: s.0
  }

  predicate UniquelyDefines(m: Graph, file: string, name: string)
  {
    Definers(m, name) == {file}
  }

  /** What resolution starts from: without the edges of files whose calls are known. */
  function Prune(m: Graph): Graph
  {
    m.(edges := (set e | e in m.edges && e.0 !in m.pending), dirty := false)
  }

  /** Prune, and link each call to the one file that defines its symbol, if there is one; edges of other
      files stay as loaded. */
  function ResolveCalls(m: Graph): Graph
  {
    m.(edges := Prune(m).edges + Links(m), dirty := false)
  }

  function Links(m: Graph): set<(string, string)>
  {
    set c, s | c in m.pending && s in m.symbols && UniquelyDefines(m, s.0, m.pending[c]) :: (c, s.0)
  }

  function Callees(m: Graph, file: string): set<string>
  {
    set e | e in m.edges && e.0 == file :: e.1
  }

  function Signal(m: Graph, node: string, depth: nat): Graph
  {
    var near := if depth == 0 then {} else Callees(m, node);
    m.(pressure := m.pressure + multiset{node} + multiset(near))
  }

  function PageIn(m: Graph, uri: string): Graph
  {
    m.(resident := m.resident + {uri} + Callees(m, uri))
  }

  const SYMBOL_PREFIX: string := "sym:"

  /** Where the last colon of a text is. */
  function LastColon(t: string): (at: Option<nat>)
    ensures at.Some? ==> at.value < |t| && t[at.value] == ':'
  {
    if t == [] then None
    else if t[|t| - 1] == ':' then Some(|t| - 1)
    else LastColon(t[..|t| - 1])
  }

  /** The symbol that a node of this id is to resolution. */
  function SymbolOf(id: string): Option<(string, string)>
  {
    if SYMBOL_PREFIX <= id then
      var rest := id[|SYMBOL_PREFIX|..];
      match LastColon(rest)
      case None => None
      case Some(at) => Some((rest[..at], rest[at + 1..]))
    else None
  }

  function SymbolsOf(ids: seq<string>): set<(string, string)>
  {
    set id | id in ids && SymbolOf(id).Some? :: SymbolOf(id).value
  }

  /** An assertion makes nodes of the ids that are not there yet. */
  function Believe(m: Graph, evidence: string, claim: string, supports: bool, weight: Float): Graph
  {
    m.(beliefs := m.beliefs + [(evidence, claim, supports, weight)],
       symbols := m.symbols + SymbolsOf([evidence, claim]))
  }

  function Reweigh(m: Graph, weights: seq<Float>): Graph
  {
    m.(weights := weights)
  }

  /** A snapshot as the program writes it: the awaited calls are runtime-only and left out, and so is the
      flag. */
  function Durable(m: Graph): Graph
  {
    m.(pending := map[], dirty := false)
  }

  const LOSSY: Kernel<Graph, Graph> :=
    Kernel(EMPTY, IngestFile, (m: Graph) => m.dirty, ResolveCalls, Prune, Signal, PageIn, Believe, Reweigh,
      (m: Graph) => Some(Durable(m)), (s: Graph) => Some(Durable(s)))

  /** The same memory with snapshots that keep the awaited calls. */
  const FAITHFUL: Kernel<Graph, Graph> :=
    LOSSY.(toJson := (m: Graph) => Some(m), fromJson := (s: Graph) => Some(s.(dirty := false)))

  lemma PruneTwice(m: Graph)
    ensures Prune(ResolveCalls(m)) == Prune(m)
  {
    assert Prune(ResolveCalls(m)).edges == Prune(m).edges;
  }

  /** Resolution looks at symbols and awaited calls, and at the edges pruning leaves. */
  lemma ResolveLooksAt(m: Graph, m': Graph)
    requires m'.symbols == m.symbols && m'.pending == m.pending && Prune(m').edges == Prune(m).edges
    ensures ResolveCalls(m') == m'.(edges := ResolveCalls(m).edges, dirty := false)
  {
    assert forall name :: Definers(m', name) == Definers(m, name);
    assert Links(m') == Links(m);
  }

  lemma ResolvePruned(m: Graph)
    ensures ResolveCalls(Prune(m)) == ResolveCalls(m)
  {
    assert Prune(Prune(m)).edges == Prune(m).edges;
    ResolveLooksAt(m, Prune(m));
  }

  lemma PrunedIngest(m: Graph, uri: string, source: string)
    ensures Prune(IngestFile(Prune(m), uri, source)) == Prune(IngestFile(m, uri, source))
  {
    var a, b := IngestFile(Prune(m), uri, source), IngestFile(m, uri, source);
    assert a.pending == b.pending;
    assert Prune(a).edges == Prune(b).edges;
  }

  lemma PrunedBelief(m: Graph, e: string, c: string, p: bool, w: Float)
    ensures Prune(Believe(Prune(m), e, c, p, w)) == Prune(Believe(m, e, c, p, w))
  {
    assert Prune(Believe(Prune(m), e, c, p, w)).edges == Prune(m).edges;
  }

  lemma PrunedRetune(m: Graph, w: seq<Float>)
    ensures Prune(Reweigh(Prune(m), w)) == Prune(Reweigh(m, w))
    ensures ResolveCalls(Reweigh(m, w)) == Reweigh(ResolveCalls(m), w)
  {
    assert Prune(Reweigh(Prune(m), w)).edges == Prune(m).edges;
    ResolveLooksAt(m, Reweigh(m, w));
  }

  /** Both memories obey the laws, whatever their snapshots keep. */
  lemma LawsHold()
    ensures ResolutionLaws(LOSSY) && ResolutionLaws(FAITHFUL)
  {
    hide ResolveCalls, Prune, IngestFile, Believe, Reweigh;
    FlagLaws();
    forall m: Graph
      ensures Prune(ResolveCalls(m)) == Prune(m) && ResolveCalls(Prune(m)) == ResolveCalls(m)
    {
      PruneTwice(m);
      ResolvePruned(m);
    }
    forall m: Graph, u, s
      ensures Prune(IngestFile(Prune(m), u, s)) == Prune(IngestFile(m, u, s))
    {
      PrunedIngest(m, u, s);
    }
    forall m: Graph, e, c, p, w
      ensures Prune(Believe(Prune(m), e, c, p, w)) == Prune(Believe(m, e, c, p, w))
    {
      PrunedBelief(m, e, c, p, w);
    }
    forall m: Graph, w
      ensures Prune(Reweigh(Prune(m), w)) == Prune(Reweigh(m, w))
      ensures ResolveCalls(Reweigh(m, w)) == Reweigh(ResolveCalls(m), w)
    {
      PrunedRetune(m, w);
    }
  }

  /** What the operations do to the flag. */
  lemma FlagLaws()
    ensures forall m: Graph :: !ResolveCalls(m).dirty
    ensures forall m: Graph, u, s :: IngestFile(m, u, s).dirty
    ensures forall m: Graph, e, c, p, w :: Believe(m, e, c, p, w).dirty == m.dirty
    ensures forall m: Graph, w :: Reweigh(m, w).dirty == m.dirty
  {
  }

  // ----- which assertions settle -----

  /** The files that an assertion newly makes definers of a name. */
  function Gained(m: Graph, evidence: string, claim: string, name: string): set<string>
  {
    (set s | s in SymbolsOf([evidence, claim]) && s.1 == name :: s.0) - Definers(m, name)
  }

  /** The assertion leaves the link of every awaited call as it is: the name gains no definer, or had two
      already, or goes from none to two. */
  predicate LeavesLinks(m: Graph, evidence: string, claim: string)
  {
    forall c | c in m.pending ::
      var gained := Gained(m, evidence, claim, m.pending[c]);
      gained == {} || |Definers(m, m.pending[c])| >= 2 || (Definers(m, m.pending[c]) == {} && |gained| >= 2)
  }

  lemma GainedJoin(m: Graph, e: string, c: string, p: bool, w: Float, name: string)
    ensures Definers(Believe(m, e, c, p, w), name) == Definers(m, name) + Gained(m, e, c, name)
    ensures Definers(m, name) !! Gained(m, e, c, name)
  {
  }

  /** Whether two sets, one joined by more, name the same single file. */
  lemma SameSingle(d: set<string>, gained: set<string>)
    requires d !! gained
    ensures (forall f :: d == {f} <==> d + gained == {f})
            <==> gained == {} || |d| >= 2 || (d == {} && |gained| >= 2)
  {
    if gained == {} {
      assert d + gained == d;
    } else {
      var g :| g in gained;
      if |d| >= 2 {
        forall f
          ensures d != {f} && d + gained != {f}
        {
          NotSingle(d, f);
          NotSingle(d + gained, f) by {
            assert |d + gained| == |d| + |gained|;
          }
        }
      } else if d == {} {
        assert d + gained == gained;
        if |gained| >= 2 {
          forall f
            ensures gained != {f}
          {
            NotSingle(gained, f);
          }
        } else {
          OnlyOne(gained, g);
          assert d + gained == {g} && d != {g};
        }
      } else {
        var f :| f in d;
        OnlyOne(d, f);
        assert g in d + gained && g != f;
      }
    }
  }

  lemma NotSingle(s: set<string>, f: string)
    requires |s| >= 2
    ensures s != {f}
  {
  }

  lemma OnlyOne(s: set<string>, d: string)
    requires d in s && |s| <= 1
    ensures s == {d}
  {
    assert |s - {d}| == 0;
  }

  lemma LinkHolds(m: Graph, c: string, f: string)
    ensures (c, f) in Links(m) <==> c in m.pending && Definers(m, m.pending[c]) == {f}
  {
    if c in m.pending && Definers(m, m.pending[c]) == {f} {
      assert f in Definers(m, m.pending[c]);
      var s :| s in m.symbols && s.1 == m.pending[c] && s.0 == f;
      assert UniquelyDefines(m, s.0, m.pending[c]);
    }
  }

  /** Asserting before resolution is asserting after it exactly when the links of awaited calls stay. */
  lemma AssertionSettlesExactly(m: Graph, e: string, c: string, p: bool, w: Float)
    ensures ResolveCalls(Believe(m, e, c, p, w)) == Believe(ResolveCalls(m), e, c, p, w) <==> LeavesLinks(m, e, c)
  {
    hide Definers, Gained, SymbolsOf, Links;
    var m' := Believe(m, e, c, p, w);
    forall caller | caller in m.pending
      ensures (forall f :: (caller, f) in Links(m) <==> (caller, f) in Links(m'))
              <==> (var gained := Gained(m, e, c, m.pending[caller]);
                    gained == {} || |Definers(m, m.pending[caller])| >= 2
                    || (Definers(m, m.pending[caller]) == {} && |gained| >= 2))
    {
      OneCaller(m, e, c, p, w, caller);
    }
    LinksOfPending(m);
    LinksOfPending(m');
    assert Prune(m').edges == Prune(m).edges;
    LinksApart(m, Links(m'));
    assert ResolveCalls(m').edges == ResolveCalls(m).edges <==> Links(m') == Links(m);
    if LeavesLinks(m, e, c) {
      forall caller, f
        ensures (caller, f) in Links(m) <==> (caller, f) in Links(m')
      {
      }
      assert Links(m) == Links(m');
    }
  }

  lemma OneCaller(m: Graph, e: string, c: string, p: bool, w: Float, caller: string)
    requires caller in m.pending
    ensures (forall f :: (caller, f) in Links(m) <==> (caller, f) in Links(Believe(m, e, c, p, w)))
            <==> (var gained := Gained(m, e, c, m.pending[caller]);
                  gained == {} || |Definers(m, m.pending[caller])| >= 2
                  || (Definers(m, m.pending[caller]) == {} && |gained| >= 2))
  {
    hide Definers, Gained, Links;
    var name := m.pending[caller];
    var m' := Believe(m, e, c, p, w);
    GainedJoin(m, e, c, p, w, name);
    SameSingle(Definers(m, name), Gained(m, e, c, name));
    forall f
      ensures (caller, f) in Links(m) <==> Definers(m, name) == {f}
      ensures (caller, f) in Links(m') <==> Definers(m', name) == {f}
    {
      LinkHolds(m, caller, f);
      LinkHolds(m', caller, f);
    }
  }

  lemma LinksOfPending(m: Graph)
    ensures forall l | l in Links(m) :: l.0 in m.pending
  {
  }

  /** Links and pruned edges have different callers, so they can be told apart in the union. */
  lemma LinksApart(m: Graph, links: set<(string, string)>)
    requires forall l | l in links :: l.0 in m.pending
    ensures Prune(m).edges + links == Prune(m).edges + Links(m) <==> links == Links(m)
  {
    if Prune(m).edges + links == Prune(m).edges + Links(m) {
      forall l
        ensures l in links <==> l in Links(m)
      {
        assert l in Prune(m).edges + links <==> l in Prune(m).edges + Links(m);
      }
    }
  }

  /** On a run in sync so far, one more assertion keeps replay and live memory equal exactly when no ingest
      awaits resolution there or the links of awaited calls stay. */
  lemma AssertionInSyncExactly(base: Graph, ops: seq<Op>, e: string, c: string, p: bool, w: Float)
    requires !base.dirty && ReplayOps(LOSSY, base, ops) == EagerAll(LOSSY, base, ops)
    ensures var r, all := DeferredAll(LOSSY, Replaying(base, false), ops), ops + [Assert(e, c, p, w)];
            ReplayOps(LOSSY, base, all) == EagerAll(LOSSY, base, all) <==> !r.dirty || LeavesLinks(r.m, e, c)
  {
    hide ResolutionLaws, ReplayOps, EagerAll, DeferredAll, Believe, ResolveCalls, LeavesLinks;
    LawsHold();
    var all := ops + [Assert(e, c, p, w)];
    assert all[..|ops|] == ops && all[..|ops| + 1] == all;
    OneMore(LOSSY, base, all, |ops|);
    AssertionSettlesExactly(DeferredAll(LOSSY, Replaying(base, false), ops).m, e, c, p, w);
  }

  /** The assertion at `i` meets no pending ingest in the replay, or leaves the links of awaited calls. */
  ghost predicate Harmless(ops: seq<Op>, i: nat)
    requires i < |ops| && ops[i].Assert?
  {
    var r := DeferredAll(LOSSY, Replaying(EMPTY, false), ops[..i]);
    r.dirty ==> LeavesLinks(r.m, ops[i].evidence, ops[i].claim)
  }

  /** At every step the timeline reproduces the live memory, if and only if no assertion that finds an
      ingest pending changes the link of an awaited call. */
  lemma TimelineReproducesExactly(ops: seq<Op>)
    ensures (forall n | 0 <= n <= |ops| :: ReplayOps(LOSSY, EMPTY, ops[..n]) == EagerAll(LOSSY, EMPTY, ops[..n]))
            <==> forall i | 0 <= i < |ops| && ops[i].Assert? :: Harmless(ops, i)
  {
    hide ResolutionLaws, ReplayOps, EagerAll, DeferredAll, Believe, ResolveCalls, LeavesLinks;
    LawsHold();
    DeferredIsEager(LOSSY, EMPTY, ops);
    forall i | 0 <= i < |ops|
      ensures SettlesAt(LOSSY, DeferredAll(LOSSY, Replaying(EMPTY, false), ops[..i]), ops[i])
              <==> (ops[i].Assert? ==> Harmless(ops, i))
    {
      if ops[i].Assert? {
        var m := DeferredAll(LOSSY, Replaying(EMPTY, false), ops[..i]).m;
        AssertionSettlesExactly(m, ops[i].evidence, ops[i].claim, ops[i].supports, ops[i].weight);
      }
    }
  }

  /** A file with a call, and an assertion about a symbol of that name in a file not yet ingested. */
  const CALLING := Ingest("b", "cf")
  const ASSERTED := Assert("sym:a:f", "x", true, 0)

  lemma SymbolParses()
    ensures SymbolOf("sym:a:f") == Some(("a", "f")) && SymbolOf("x") == None
  {
    var id := "sym:a:f";
    assert SYMBOL_PREFIX == id[..4];
    var rest := id[4..];
    assert rest == "a:f" && rest[..2] == "a:" && rest[..2][1] == ':';
    assert LastColon(rest[..2]) == Some(1);
    assert LastColon(rest) == Some(1);
    assert rest[..1] == "a" && rest[2..] == "f";
  }

  lemma CallAwaits()
    ensures var m := IngestFile(EMPTY, "b", "cf");
            m.pending == map["b" := "f"] && m.symbols == {} && !LeavesLinks(m, "sym:a:f", "x")
  {
    var m := IngestFile(EMPTY, "b", "cf");
    assert "cf"[1..] == "f";
    SymbolParses();
    assert ["sym:a:f", "x"][0] == "sym:a:f" && ["sym:a:f", "x"][1] == "x";
    assert SymbolsOf(["sym:a:f", "x"]) == {("a", "f")};
    assert ("a", "f") in SymbolsOf(["sym:a:f", "x"]);
    assert Gained(m, "sym:a:f", "x", "f") == {"a"};
    assert Definers(m, "f") == {};
    assert "b" in m.pending && m.pending["b"] == "f";
  }

  /** The assertion makes the call resolve in the replay and not in the live memory; and a cut between the
      two, however well the memory is kept there, changes what the timeline replays to. */
  lemma AssertionPartsReplay()
    ensures ReplayOps(LOSSY, EMPTY, [CALLING, ASSERTED]) != EagerAll(LOSSY, EMPTY, [CALLING, ASSERTED])
    ensures ReplayOps(LOSSY, ReplayOps(LOSSY, EMPTY, [CALLING]), [ASSERTED]) != ReplayOps(LOSSY, EMPTY,
        [CALLING, ASSERTED])
  {
    hide ResolutionLaws, ReplayOps, EagerAll, Deferred, Eager, IngestFile, LeavesLinks, ResolveCalls, Believe;
    LawsHold();
    CallAwaits();
    var one, two := [CALLING], [CALLING, ASSERTED];
    assert one == [] + [CALLING] && two == one + [ASSERTED];
    OneIngest(EMPTY, "b", "cf");
    AssertionInSyncExactly(EMPTY, one, "sym:a:f", "x", true, 0);
    var floor := ReplayOps(LOSSY, EMPTY, one);
    Clean(one);
    OneAssert(floor, ASSERTED);
    EagerAllSplit(LOSSY, EMPTY, one, [ASSERTED]);
  }

  lemma OneIngest(base: Graph, uri: string, source: string)
    requires !base.dirty
    ensures ReplayOps(LOSSY, base, [Ingest(uri, source)]) == EagerAll(LOSSY, base, [Ingest(uri, source)])
    ensures ReplayOps(LOSSY, base, [Ingest(uri, source)]) == AfterIngest(base, uri, source)
    ensures DeferredAll(LOSSY, Replaying(base, false), [Ingest(uri, source)])
            == Replaying(IngestFile(base, uri, source), true)
  {
    hide ReplayOps, EagerAll, DeferredAll, ResolveCalls;
    OneReplayed(LOSSY, base, Ingest(uri, source));
    FlagLaws();
  }

  lemma OneAssert(base: Graph, op: Op)
    requires !base.dirty && op.Assert?
    ensures ReplayOps(LOSSY, base, [op]) == EagerAll(LOSSY, base, [op])
  {
    hide ReplayOps, EagerAll, DeferredAll, ResolveCalls, Believe;
    OneReplayed(LOSSY, base, op);
    FlagLaws();
  }

  /** Whatever is recorded, what it replays to awaits no resolution. */
  lemma Clean(ops: seq<Op>)
    ensures !ReplayOps(LOSSY, EMPTY, ops).dirty
  {
    hide ResolutionLaws, ReplayOps, DeferredAll, Settle;
    LawsHold();
    AllTracked(LOSSY, Replaying(EMPTY, false), ops);
    ReplayIsSettled(LOSSY, EMPTY, ops);
  }

  // ----- what a snapshot must keep -----

  /** What a snapshot can show of the memory that replaying `ops` on `m` gives. */
  function Shown(m: Graph, ops: seq<Op>): Graph
  {
    Durable(ReplayOps(LOSSY, m, ops))
  }

  ghost predicate ReplaysAlike(m: Graph, m': Graph)
  {
    forall ops: seq<Op> :: Shown(m, ops) == Shown(m', ops)
  }

  function AfterIngest(m: Graph, uri: string, source: string): Graph
  {
    ResolveCalls(IngestFile(m, uri, source))
  }

  predicate OnlyIngests(ops: seq<Op>)
  {
    forall op | op in ops :: op.Ingest?
  }

  lemma ShownAfterIngest(m: Graph, uri: string, source: string, ops: seq<Op>)
    requires !m.dirty && OnlyIngests(ops)
    ensures Shown(m, [Ingest(uri, source)] + ops) == Shown(AfterIngest(m, uri, source), ops)
    ensures !AfterIngest(m, uri, source).dirty
  {
    hide ResolutionLaws, ReplayOps, IngestFile, DeferredAll, SettlesAt;
    LawsHold();
    var op := Ingest(uri, source);
    var all := [op] + ops;
    ReplaySplit(LOSSY, m, all, 1);
    assert all[..1] == [op] && all[1..] == ops;
    IngestsCut(DeferredAll(LOSSY, Replaying(m, false), [op]), ops);
    assert SameAt(LOSSY, m, all, 1, |all|);
    assert all[1..|all|] == ops && all[..|all|] == all;
    OneIngest(m, uri, source);
  }

  lemma IngestsCut(r: Replaying<Graph>, ops: seq<Op>)
    requires OnlyIngests(ops)
    ensures CutSettles(LOSSY, r, ops)
  {
    hide DeferredAll;
    forall i | 0 <= i < |ops|
      ensures ops[i].Ingest?
    {
      assert ops[i] in ops;
    }
  }

  lemma ShownAtOnce(m: Graph)
    ensures Shown(m, []) == Durable(m)
  {
  }

  predicate IsFresh(m: Graph, u: string)
  {
    && u !in m.pending
    && (forall s | s in m.symbols :: s.0 != u)
    && (forall e | e in m.edges :: e.0 != u && e.1 != u)
  }

  /** A file no part of the memory mentions. */
  lemma FreshFile(m: Graph) returns (u: string)
    ensures IsFresh(m, u)
  {
    var used := m.pending.Keys + (set s | s in m.symbols :: s.0) + (set e | e in m.edges :: e.0)
              + (set e | e in m.edges :: e.1);
    u := Longer(used);
    assert forall s | s in m.symbols :: s.0 in used;
    assert forall e | e in m.edges :: e.0 in used && e.1 in used;
  }

  lemma {:induction false} Longer(used: set<string>) returns (u: string)
    ensures u !in used && forall s | s in used :: |s| < |u|
  {
    if used == {} {
      u := [];
    } else {
      var s :| s in used;
      var v := Longer(used - {s});
      u := if |s| < |v| then v else s + "x";
      assert forall t | t in used :: t == s || t in used - {s};
    }
  }

  /** The caller's edges are the ones resolution gives it. */
  ghost predicate UpToDate(m: Graph, c: string)
  {
    forall f :: (c, f) in m.edges <==> (c, f) in Links(m)
  }

  lemma JustResolved(m: Graph, c: string)
    requires c in m.pending
    ensures UpToDate(ResolveCalls(m), c)
  {
    hide Definers;
    var r := ResolveCalls(m);
    assert forall name :: Definers(r, name) == Definers(m, name) by {
      SameDefiners(m, r);
    }
    assert Links(r) == Links(m);
  }

  lemma SameDefiners(m: Graph, m': Graph)
    requires m'.symbols == m.symbols
    ensures forall name :: Definers(m', name) == Definers(m, name)
  {
  }

  /** A caller whose symbol has at most one definer is told apart by one more definition of it. */
  lemma OneMoreDefinition(m: Graph, c: string, u: string)
    requires c in m.pending && UpToDate(m, c) && |Definers(m, m.pending[c])| <= 1 && IsFresh(m, u)
    ensures Durable(AfterIngest(m, u, "d" + m.pending[c])) != Durable(AfterIngest(Durable(m), u, "d" + m.pending[c]))
  {
    hide Definers, Links;
    var x := m.pending[c];
    var source := "d" + x;
    assert source[1..] == x;
    var a, b := IngestFile(m, u, source), IngestFile(Durable(m), u, source);
    assert b.edges == m.edges && b.pending == map[];
    LinksOfPending(b);
    assert ResolveCalls(b).edges == m.edges;
    assert c in a.pending && a.pending[c] == x;
    DefinitionAdded(m, u, x);
    if Definers(m, x) == {} {
      LinkHolds(a, c, u);
      assert Definers(a, x) == {u};
      assert (c, u) in ResolveCalls(a).edges && (c, u) !in m.edges;
    } else {
      var d :| d in Definers(m, x);
      OnlyOne(Definers(m, x), d);
      LinkHolds(m, c, d);
      assert (c, d) in m.edges;
      LinkHolds(a, c, d);
      assert u in Definers(a, x) && u != d;
      assert (c, d) !in ResolveCalls(a).edges;
    }
  }

  lemma DefinitionAdded(m: Graph, u: string, x: string)
    requires IsFresh(m, u)
    ensures Definers(IngestFile(m, u, "d" + x), x) == Definers(m, x) + {u} && u !in Definers(m, x)
  {
    var a := IngestFile(m, u, "d" + x);
    assert ("d" + x)[1..] == x;
    assert (u, x) in a.symbols;
    assert forall s | s in m.symbols :: s in a.symbols;
  }

  /** With an awaited call that is up to date, some ingests show the difference. */
  lemma {:induction false} AwaitedCallShows(m: Graph, c: string) returns (ops: seq<Op>)
    requires !m.dirty && c in m.pending && UpToDate(m, c)
    ensures OnlyIngests(ops) && Shown(m, ops) != Shown(Durable(m), ops)
    decreases |Definers(m, m.pending[c])|
  {
    hide Shown, IngestFile, ResolveCalls, AfterIngest, Durable, UpToDate, Definers, IsFresh;
    var x := m.pending[c];
    if |Definers(m, x)| <= 1 {
      var u := FreshFile(m);
      OneMoreDefinition(m, c, u);
      ops := ShownByOne(m, u, "d" + x);
    } else {
      var d := OtherMember(Definers(m, x), c);
      DefinitionDropped(m, c, d);
      ops := ShownLater(m, c, d);
    }
  }

  lemma OtherMember(s: set<string>, c: string) returns (d: string)
    requires |s| >= 2
    ensures d in s && d != c
  {
    if s - {c} == {} {
      assert s <= {c};
      NoMore(s, c);
    }
    d :| d in s - {c};
  }

  lemma NoMore(s: set<string>, c: string)
    requires s <= {c}
    ensures |s| <= 1
  {
    if c in s {
      assert s == {c};
    } else {
      assert s == {};
    }
  }

  lemma ShownByOne(m: Graph, u: string, source: string) returns (ops: seq<Op>)
    requires !m.dirty && Durable(AfterIngest(m, u, source)) != Durable(AfterIngest(Durable(m), u, source))
    ensures OnlyIngests(ops) && Shown(m, ops) != Shown(Durable(m), ops)
  {
    hide Shown, IngestFile, ResolveCalls, AfterIngest;
    ops := [Ingest(u, source)];
    assert ops + [] == ops;
    ShownAfterIngest(m, u, source, []);
    ShownAfterIngest(Durable(m), u, source, []);
    ShownAtOnce(AfterIngest(m, u, source));
    ShownAtOnce(AfterIngest(Durable(m), u, source));
  }

  /** Ingest a plain file: either that shows the difference, or what follows it does. */
  lemma {:induction false} ShownLater(m: Graph, c: string, u: string) returns (ops: seq<Op>)
    requires !m.dirty && c in m.pending && c != u
    requires u in Definers(m, m.pending[c]) && |Definers(m, m.pending[c])| >= 2
    ensures OnlyIngests(ops) && Shown(m, ops) != Shown(Durable(m), ops)
    decreases |Definers(m, m.pending[c])|, 0
  {
    hide Shown, IngestFile, ResolveCalls, AfterIngest, Durable, UpToDate, Definers;
    var a, b := AfterIngest(m, u, ""), AfterIngest(Durable(m), u, "");
    PlainIngest(m, c, u);
    if Durable(a) != Durable(b) {
      ops := ShownByOne(m, u, "");
    } else {
      DefinitionDropped(m, c, u);
      var rest := AwaitedCallShows(a, c);
      ops := Prefixed(m, u, rest);
    }
  }

  lemma Prefixed(m: Graph, u: string, rest: seq<Op>) returns (ops: seq<Op>)
    requires !m.dirty && OnlyIngests(rest)
    requires Durable(AfterIngest(m, u, "")) == AfterIngest(Durable(m), u, "")
    requires Shown(AfterIngest(m, u, ""), rest) != Shown(Durable(AfterIngest(m, u, "")), rest)
    ensures OnlyIngests(ops) && Shown(m, ops) != Shown(Durable(m), ops)
  {
    hide Shown, IngestFile, ResolveCalls, AfterIngest;
    ops := [Ingest(u, "")] + rest;
    ShownAfterIngest(m, u, "", rest);
    ShownAfterIngest(Durable(m), u, "", rest);
  }

  /** Ingesting a plain file leaves another file's awaited call, up to date. */
  lemma PlainIngest(m: Graph, c: string, u: string)
    requires !m.dirty && c in m.pending && c != u
    ensures var a, b := AfterIngest(m, u, ""), AfterIngest(Durable(m), u, "");
            && !a.dirty && c in a.pending && a.pending[c] == m.pending[c] && UpToDate(a, c)
            && Durable(b) == b
  {
    hide Definers;
    JustResolved(IngestFile(m, u, ""), c);
  }

  lemma DefinitionDropped(m: Graph, c: string, d: string)
    requires c in m.pending && d in Definers(m, m.pending[c])
    ensures |Definers(AfterIngest(m, d, ""), m.pending[c])| < |Definers(m, m.pending[c])|
  {
    var a, x := AfterIngest(m, d, ""), m.pending[c];
    assert Definers(a, x) == Definers(m, x) - {d};
  }

  /** A snapshot replays like the memory it was taken of, whatever is recorded afterwards, exactly
      when no call awaits resolution. So a compaction after any file with calls was ingested can
      change what the timeline replays to, and part it from the live memory. */
  lemma SnapshotReplaysExactly(m: Graph)
    requires !m.dirty
    ensures ReplaysAlike(m, Durable(m)) <==> m.pending == map[]
  {
    hide ResolutionLaws, Shown;
    if m.pending != map[] {
      var c :| c in m.pending.Keys;
      var ops := AnyCallShows(m, c);
      assert Shown(m, ops) != Shown(Durable(m), ops);
    } else {
      assert Durable(m) == m;
    }
  }

  /** An awaited call need not be up to date: then ingesting any plain file shows it or brings it so. */
  lemma AnyCallShows(m: Graph, c: string) returns (ops: seq<Op>)
    requires !m.dirty && c in m.pending
    ensures Shown(m, ops) != Shown(Durable(m), ops)
  {
    hide Shown, IngestFile, ResolveCalls, AfterIngest, Durable, UpToDate, Definers;
    var u := FreshFile(m);
    PlainIngest(m, c, u);
    if Durable(AfterIngest(m, u, "")) != Durable(AfterIngest(Durable(m), u, "")) {
      ops := ShownByOne(m, u, "");
    } else {
      var rest := AwaitedCallShows(AfterIngest(m, u, ""), c);
      ops := Prefixed(m, u, rest);
    }
  }

  /** Every memory a timeline replays to is of the kind `SnapshotReplaysExactly` speaks of, and so is every
      live one. */
  lemma {:induction false} ReachableMemory(ops: seq<Op>)
    ensures !ReplayOps(LOSSY, EMPTY, ops).dirty && !EagerAll(LOSSY, EMPTY, ops).dirty
  {
    hide Eager, ResolutionLaws, ReplayOps;
    LawsHold();
    Clean(ops);
    if ops == [] {
    } else {
      ReachableMemory(ops[..|ops| - 1]);
      EagerClean(LOSSY, EagerAll(LOSSY, EMPTY, ops[..|ops| - 1]), ops[|ops| - 1]);
    }
  }

  // ----- what a run leaves -----

  /** What an op leaves in the memory for good: pressure on a failing node and on every faulting file, the
      node a recall or a fault pages in, and the belief asserted. */
  ghost predicate Noted(m: Graph, op: Op)
  {
    match op
    case Ingest(_, _) => true
    case Failure(node, _) => node in m.pressure
    case PageFault(files, _) =>
      && (forall i | 0 <= i < |files| :: FILE_PREFIX + files[i] in m.pressure)
      && (files != [] ==> FILE_PREFIX + files[0] in m.resident)
    case Recalled(recall, _) => recall.Around? ==> recall.uri in m.resident
    case Retune(_) => true
    case Assert(evidence, claim, supports, weight) => (evidence, claim, supports, weight) in m.beliefs
  }

  ghost predicate Grows(m: Graph, m': Graph)
  {
    m.pressure <= m'.pressure && m.resident <= m'.resident && m.beliefs <= m'.beliefs
  }

  lemma {:induction false} SignalsNoted(m: Graph, files: seq<string>, depth: nat)
    ensures var m' := SignalAll(LOSSY, m, files, depth);
            && Grows(m, m') && m'.weights == m.weights
            && forall i | 0 <= i < |files| :: FILE_PREFIX + files[i] in m'.pressure
  {
    if files == [] {
    } else {
      SignalsNoted(m, files[..|files| - 1], depth);
    }
  }

  lemma BeliefNoted(m: Graph, e: string, c: string, supports: bool, w: Float)
    ensures var m' := Believe(m, e, c, supports, w);
            Grows(m, m') && m'.weights == m.weights && (e, c, supports, w) in m'.beliefs
  {
    hide SymbolsOf;
    assert Believe(m, e, c, supports, w).beliefs[|m.beliefs|] == (e, c, supports, w);
  }

  lemma PageNoted(m: Graph, u: string)
    ensures Grows(m, PageIn(m, u)) && PageIn(m, u).weights == m.weights
    ensures u in PageIn(m, u).resident && PageIn(m, u).pressure == m.pressure
  {
  }

  lemma IngestNoted(m: Graph, u: string, source: string)
    ensures var m' := Eager(LOSSY, m, Ingest(u, source)); Grows(m, m') && m'.weights == m.weights
  {
    hide IngestFile, Links, Prune;
    Untouched(m, u, source);
  }

  lemma Untouched(m: Graph, u: string, source: string)
    ensures var m' := IngestFile(m, u, source);
            m'.beliefs == m.beliefs && m'.weights == m.weights && m'.pressure == m.pressure && m'.resident == m.resident
  {
  }

  lemma StepNoted(m: Graph, op: Op)
    ensures var m' := Eager(LOSSY, m, op);
            Grows(m, m') && Noted(m', op) && m'.weights == if op.Retune? then op.weights else m.weights
  {
    hide PageIn, Believe, SignalAll, IngestFile, ResolveCalls;
    match op {
      case Ingest(uri, source) => IngestNoted(m, uri, source);
      case Failure(node, depth) =>
      case PageFault(files, depth) =>
        SignalsNoted(m, files, depth);
        if files != [] {
          PageNoted(SignalAll(LOSSY, m, files, depth), FILE_PREFIX + files[0]);
        }
      case Recalled(recall, _) =>
        if recall.Around? {
          PageNoted(m, recall.uri);
        }
      case Retune(_) =>
      case Assert(e, c, supports, w) => BeliefNoted(m, e, c, supports, w);
    }
  }

  /** After any run, everything that was noted on the way still is. */
  lemma {:induction false} RunNoted(m: Graph, ops: seq<Op>, i: nat)
    requires i < |ops|
    ensures Grows(m, EagerAll(LOSSY, m, ops)) && Noted(EagerAll(LOSSY, m, ops), ops[i])
    decreases |ops|
  {
    hide Eager, Grows, Noted;
    var n := |ops| - 1;
    var before := EagerAll(LOSSY, m, ops[..n]);
    StepNoted(before, ops[n]);
    if n == 0 {
      assert ops[..0] == [];
    } else {
      RunNoted(m, ops[..n], if i < n then i else 0);
      GrowsOn(m, before, Eager(LOSSY, before, ops[n]));
      if i < n {
        StillNoted(before, Eager(LOSSY, before, ops[n]), ops[i]);
      }
    }
  }

  lemma GrowsOn(m: Graph, m': Graph, m'': Graph)
    requires Grows(m, m') && Grows(m', m'')
    ensures Grows(m, m'')
  {
  }

  lemma StillNoted(m: Graph, m': Graph, op: Op)
    requires Grows(m, m') && Noted(m, op)
    ensures Noted(m', op)
  {
  }
}
