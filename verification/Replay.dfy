/** Replaying an op-log: the deferred-resolution discipline against resolving after every ingest.
    The memory itself is a parameter, known only by the laws the session layer relies on. */
module Replay {
  import opened Options
  import opened Timeline

  /** The memory operations a session calls. `S` is the type of serialised snapshots. `needs` is the flag
      that a deferred ingest sets; `resolveAll` prunes the edges that resolution owns, rebuilds them and
      clears the flag; `pruned` is what it rebuilds them from. */
  datatype Kernel<!M, !S> = Kernel(
    empty: M,
    ingestDeferred: (M, string, string) -> M,
    needs: M -> bool,
    resolveAll: M -> M,
    pruned: M -> M,
    signalFailure: (M, string, nat) -> M,
    ensureResident: (M, string) -> M,
    assertEvidence: (M, string, string, bool, Float) -> M,
    setWeights: (M, seq<Float>) -> M,
    toJson: M -> Option<S>,
    fromJson: S -> Option<M>
  )

  /** Resolution returns at once when no ingest is pending. */
  function Resolve<M, S>(k: Kernel<M, S>, m: M): M
  {
    if k.needs(m) then k.resolveAll(m) else m
  }

  /** Resolution rebuilds its edges from the rest of the memory, and ingests and assertions change that rest
      without reading those edges; a retune commutes with resolution. Of an assertion this is not said: it
      may add a node, and resolution reads nodes. Only an ingest makes resolution
      pending, and a snapshot loads with none pending. */
  ghost predicate ResolutionLaws<M(!new), S(!new)>(k: Kernel<M, S>)
  {
    && !k.needs(k.empty)
    && (forall s: S | k.fromJson(s).Some? :: !k.needs(k.fromJson(s).value))
    && (forall m: M :: !k.needs(k.resolveAll(m)))
    && (forall m: M :: k.pruned(k.resolveAll(m)) == k.pruned(m))
    && (forall m: M :: k.resolveAll(k.pruned(m)) == k.resolveAll(m))
    && (forall m: M, u, s :: k.needs(k.ingestDeferred(m, u, s)))
    && (forall m: M, u, s :: k.pruned(k.ingestDeferred(k.pruned(m), u, s)) == k.pruned(k.ingestDeferred(m, u, s)))
    && (forall m: M, e, c, p, w :: k.needs(k.assertEvidence(m, e, c, p, w)) == k.needs(m))
    && (forall m: M, e, c, p, w ::
        k.pruned(k.assertEvidence(k.pruned(m), e, c, p, w)) == k.pruned(k.assertEvidence(m, e, c, p, w)))
    && (forall m: M, w :: k.needs(k.setWeights(m, w)) == k.needs(m))
    && (forall m: M, w :: k.resolveAll(k.setWeights(m, w)) == k.setWeights(k.resolveAll(m), w))
    && (forall m: M, n, d | !k.needs(m) :: !k.needs(k.signalFailure(m, n, d)))
    && (forall m: M, u | !k.needs(m) :: !k.needs(k.ensureResident(m, u)))
  }

  const FILE_PREFIX: string := "file:"

  function SignalAll<M, S>(k: Kernel<M, S>, m: M, files: seq<string>, depth: nat): M
  {
    if files == [] then m
    else
      var n := |files| - 1;
      k.signalFailure(SignalAll(k, m, files[..n], depth), FILE_PREFIX + files[n], depth)
  }

  // ----- deferred: what replay does -----

  /** A memory under replay, and whether deferred ingests await resolution. */
  datatype Replaying<M> = Replaying(m: M, dirty: bool)

  function Settle<M, S>(k: Kernel<M, S>, r: Replaying<M>): M
  {
    if r.dirty then Resolve(k, r.m) else r.m
  }

  function Deferred<M, S>(k: Kernel<M, S>, r: Replaying<M>, op: Op): Replaying<M>
  {
    match op
    case Ingest(uri, source) => Replaying(k.ingestDeferred(r.m, uri, source), true)
    case Failure(node, depth) => Replaying(k.signalFailure(Settle(k, r), node, depth), false)
    case PageFault(files, depth) =>
      var m := SignalAll(k, Settle(k, r), files, depth);
      Replaying(if files == [] then m else k.ensureResident(m, FILE_PREFIX + files[0]), false)
    case Recalled(recall, _) =>
      Replaying(if recall.Around? then k.ensureResident(Settle(k, r), recall.uri) else Settle(k, r), false)
    case Retune(weights) => r.(m := k.setWeights(r.m, weights))
    case Assert(e, c, supports, w) => r.(m := k.assertEvidence(r.m, e, c, supports, w))
  }

  function DeferredAll<M, S>(k: Kernel<M, S>, r: Replaying<M>, ops: seq<Op>): Replaying<M>
  {
    if ops == [] then r else Deferred(k, DeferredAll(k, r, ops[..|ops| - 1]), ops[|ops| - 1])
  }

  /** Resolve once before each op that reads resolved edges, and once at the end. */
  function ReplayOps<M, S>(k: Kernel<M, S>, base: M, ops: seq<Op>): M
  {
    Settle(k, DeferredAll(k, Replaying(base, false), ops))
  }

  method ApplyOp<M, S>(k: Kernel<M, S>, m: M, op: Op, dirty: bool) returns (m': M, dirty': bool)
    ensures Replaying(m', dirty') == Deferred(k, Replaying(m, dirty), op)
  {
    m', dirty' := m, dirty;
    match op {
      case Ingest(uri, source) =>
        m', dirty' := k.ingestDeferred(m', uri, source), true;
      case Failure(node, depth) =>
        if dirty' {
          m', dirty' := Resolve(k, m'), false;
        }
        m' := k.signalFailure(m', node, depth);
      case PageFault(files, depth) =>
        if dirty' {
          m', dirty' := Resolve(k, m'), false;
        }
        ghost var settled := m';
        for i := 0 to |files|
          invariant m' == SignalAll(k, settled, files[..i], depth)
        {
          assert files[..i + 1][..i] == files[..i];
          m' := k.signalFailure(m', FILE_PREFIX + files[i], depth);
        }
        assert files[..|files|] == files;
        if files != [] {
          m' := k.ensureResident(m', FILE_PREFIX + files[0]);
        }
      case Recalled(recall, _) =>
        if dirty' {
          m', dirty' := Resolve(k, m'), false;
        }
        if recall.Around? {
          m' := k.ensureResident(m', recall.uri);
        }
      case Retune(weights) =>
        m' := k.setWeights(m', weights);
      case Assert(e, c, supports, w) =>
        m' := k.assertEvidence(m', e, c, supports, w);
    }
  }

  method ApplyAll<M, S>(k: Kernel<M, S>, m: M, dirty: bool, ops: seq<Op>) returns (m': M, dirty': bool)
    ensures Replaying(m', dirty') == DeferredAll(k, Replaying(m, dirty), ops)
  {
    hide Deferred;
    m', dirty' := m, dirty;
    for i := 0 to |ops|
      invariant Replaying(m', dirty') == DeferredAll(k, Replaying(m, dirty), ops[..i])
    {
      assert ops[..i + 1][..i] == ops[..i];
      m', dirty' := ApplyOp(k, m', ops[i], dirty');
    }
    assert ops[..|ops|] == ops;
  }

  // ----- eager: what the live session does -----

  function Eager<M, S>(k: Kernel<M, S>, m: M, op: Op): M
  {
    match op
    case Ingest(uri, source) => Resolve(k, k.ingestDeferred(m, uri, source))
    case Failure(node, depth) => k.signalFailure(m, node, depth)
    case PageFault(files, depth) =>
      var m' := SignalAll(k, m, files, depth);
      if files == [] then m' else k.ensureResident(m', FILE_PREFIX + files[0])
    case Recalled(recall, _) => if recall.Around? then k.ensureResident(m, recall.uri) else m
    case Retune(weights) => k.setWeights(m, weights)
    case Assert(e, c, supports, w) => k.assertEvidence(m, e, c, supports, w)
  }

  function EagerAll<M, S>(k: Kernel<M, S>, m: M, ops: seq<Op>): M
  {
    if ops == [] then m else Eager(k, EagerAll(k, m, ops[..|ops| - 1]), ops[|ops| - 1])
  }

  // ----- when the two agree -----

  /** The flag of a replay is the memory's own. */
  ghost predicate Tracked<M, S>(k: Kernel<M, S>, r: Replaying<M>)
  {
    r.dirty == k.needs(r.m)
  }

  function Asserted<M, S>(k: Kernel<M, S>, m: M, op: Op): M
    requires op.Assert?
  {
    k.assertEvidence(m, op.evidence, op.claim, op.supports, op.weight)
  }

  /** Asserting and then resolving is resolving and then asserting: nothing awaits resolution, or the
      nodes that the assertion adds leave resolution as it was. */
  ghost predicate SettlesAt<M, S>(k: Kernel<M, S>, r: Replaying<M>, op: Op)
  {
    op.Assert? && r.dirty ==> k.resolveAll(Asserted(k, r.m, op)) == Asserted(k, k.resolveAll(r.m), op)
  }

  /** Every assertion settles where the replay meets it. */
  ghost predicate AllSettle<M, S>(k: Kernel<M, S>, r: Replaying<M>, ops: seq<Op>)
  {
    forall i | 0 <= i < |ops| :: SettlesAt(k, DeferredAll(k, r, ops[..i]), ops[i])
  }

  lemma {:induction false} SignalAllClean<M(!new), S(!new)>(k: Kernel<M, S>, m: M, files: seq<string>, depth: nat)
    requires ResolutionLaws(k) && !k.needs(m)
    ensures !k.needs(SignalAll(k, m, files, depth))
  {
    if files == [] {
    } else {
      SignalAllClean(k, m, files[..|files| - 1], depth);
    }
  }

  lemma EagerClean<M(!new), S(!new)>(k: Kernel<M, S>, m: M, op: Op)
    requires ResolutionLaws(k) && !k.needs(m)
    ensures !k.needs(Eager(k, m, op))
  {
    if op.PageFault? {
      SignalAllClean(k, m, op.files, op.depth);
    }
  }

  lemma SettledClean<M(!new), S(!new)>(k: Kernel<M, S>, r: Replaying<M>)
    requires ResolutionLaws(k) && Tracked(k, r)
    ensures !k.needs(Settle(k, r))
  {
  }

  lemma StepTracked<M(!new), S(!new)>(k: Kernel<M, S>, r: Replaying<M>, op: Op)
    requires ResolutionLaws(k) && Tracked(k, r)
    ensures Tracked(k, Deferred(k, r, op))
  {
    SettledClean(k, r);
    if op.PageFault? {
      SignalAllClean(k, Settle(k, r), op.files, op.depth);
    }
  }

  lemma {:induction false} AllTracked<M(!new), S(!new)>(k: Kernel<M, S>, r: Replaying<M>, ops: seq<Op>)
    requires ResolutionLaws(k) && Tracked(k, r)
    ensures Tracked(k, DeferredAll(k, r, ops)) && !k.needs(Settle(k, DeferredAll(k, r, ops)))
  {
    hide ResolutionLaws, Deferred, Tracked, Settle;
    if ops == [] {
    } else {
      AllTracked(k, r, ops[..|ops| - 1]);
      StepTracked(k, DeferredAll(k, r, ops[..|ops| - 1]), ops[|ops| - 1]);
    }
    SettledClean(k, DeferredAll(k, r, ops));
  }

  /** One op keeps the two in step, in that settling the replayed memory gives the live one, exactly when
      it is no assertion or one that settles. */
  lemma StepInSync<M(!new), S(!new)>(k: Kernel<M, S>, r: Replaying<M>, op: Op)
    requires ResolutionLaws(k) && Tracked(k, r)
    ensures Settle(k, Deferred(k, r, op)) == Eager(k, Settle(k, r), op) <==> SettlesAt(k, r, op)
  {
    match op {
      case Ingest(u, s) =>
        IngestAbsorbs(k, r.m, u, s);
      case _ =>
    }
  }

  lemma IngestAbsorbs<M(!new), S(!new)>(k: Kernel<M, S>, m: M, u: string, s: string)
    requires ResolutionLaws(k)
    ensures k.resolveAll(k.ingestDeferred(k.resolveAll(m), u, s)) == k.resolveAll(k.ingestDeferred(m, u, s))
    ensures k.needs(k.ingestDeferred(m, u, s)) && k.needs(k.ingestDeferred(k.resolveAll(m), u, s))
  {
    AlikeIngest(k, m, k.resolveAll(m), u, s);
  }

  /** Deferred replay simulates eager execution, at every step of every op sequence from every settled
      start, exactly when each assertion settles where it is recorded. */
  lemma DeferredIsEager<M(!new), S(!new)>(k: Kernel<M, S>, base: M, ops: seq<Op>)
    requires ResolutionLaws(k) && !k.needs(base)
    ensures (forall n | 0 <= n <= |ops| :: ReplayOps(k, base, ops[..n]) == EagerAll(k, base, ops[..n]))
            <==> AllSettle(k, Replaying(base, false), ops)
  {
    hide ResolutionLaws, Deferred, Eager, ReplayOps, EagerAll, DeferredAll, SettlesAt;
    var r := Replaying(base, false);
    if AllSettle(k, r, ops) {
      forall n | 0 <= n <= |ops|
        ensures ReplayOps(k, base, ops[..n]) == EagerAll(k, base, ops[..n])
      {
        SettlePrefix(k, r, ops, n);
        SettledIsEager(k, r, ops[..n]);
        ReplayIsSettled(k, base, ops[..n]);
        NothingReplayed(k, base);
      }
    }
    if forall n | 0 <= n <= |ops| :: ReplayOps(k, base, ops[..n]) == EagerAll(k, base, ops[..n]) {
      forall i | 0 <= i < |ops|
        ensures SettlesAt(k, DeferredAll(k, r, ops[..i]), ops[i])
      {
        assert ReplayOps(k, base, ops[..i]) == EagerAll(k, base, ops[..i]);
        assert ReplayOps(k, base, ops[..i + 1]) == EagerAll(k, base, ops[..i + 1]);
        OneMore(k, base, ops, i);
      }
    }
  }

  lemma SettlePrefix<M, S>(k: Kernel<M, S>, r: Replaying<M>, ops: seq<Op>, n: nat)
    requires AllSettle(k, r, ops) && n <= |ops|
    ensures AllSettle(k, r, ops[..n])
  {
    hide SettlesAt, DeferredAll;
    forall i | 0 <= i < n
      ensures SettlesAt(k, DeferredAll(k, r, ops[..n][..i]), ops[..n][i])
    {
      assert ops[..n][..i] == ops[..i];
    }
  }

  /** From a tracked replay on, settled replay is eager execution of the rest if every assertion settles. */
  lemma {:induction false} SettledIsEager<M(!new), S(!new)>(k: Kernel<M, S>, r: Replaying<M>, ops: seq<Op>)
    requires ResolutionLaws(k) && Tracked(k, r) && AllSettle(k, r, ops)
    ensures Settle(k, DeferredAll(k, r, ops)) == EagerAll(k, Settle(k, r), ops)
  {
    hide ResolutionLaws, Deferred, Eager, Settle, SettlesAt, Tracked;
    if ops == [] {
    } else {
      var n := |ops| - 1;
      SettlePrefix(k, r, ops, n);
      SettledIsEager(k, r, ops[..n]);
      AllTracked(k, r, ops[..n]);
      assert SettlesAt(k, DeferredAll(k, r, ops[..n]), ops[n]);
      StepInSync(k, DeferredAll(k, r, ops[..n]), ops[n]);
    }
  }

  lemma OneMore<M(!new), S(!new)>(k: Kernel<M, S>, base: M, ops: seq<Op>, i: nat)
    requires ResolutionLaws(k) && !k.needs(base) && i < |ops|
    requires ReplayOps(k, base, ops[..i]) == EagerAll(k, base, ops[..i])
    ensures ReplayOps(k, base, ops[..i + 1]) == EagerAll(k, base, ops[..i + 1])
            <==> SettlesAt(k, DeferredAll(k, Replaying(base, false), ops[..i]), ops[i])
  {
    hide ResolutionLaws, Deferred, Eager, Settle, SettlesAt;
    assert ops[..i + 1][..i] == ops[..i];
    AllTracked(k, Replaying(base, false), ops[..i]);
    StepInSync(k, DeferredAll(k, Replaying(base, false), ops[..i]), ops[i]);
  }

  lemma ReplayIsSettled<M, S>(k: Kernel<M, S>, base: M, ops: seq<Op>)
    ensures ReplayOps(k, base, ops) == Settle(k, DeferredAll(k, Replaying(base, false), ops))
    ensures Settle(k, Replaying(base, false)) == base
  {
    hide DeferredAll;
  }

  lemma OneReplayed<M, S>(k: Kernel<M, S>, base: M, op: Op)
    ensures DeferredAll(k, Replaying(base, false), [op]) == Deferred(k, Replaying(base, false), op)
    ensures ReplayOps(k, base, [op]) == Settle(k, Deferred(k, Replaying(base, false), op))
    ensures EagerAll(k, base, [op]) == Eager(k, base, op)
  {
    hide Deferred, Eager, Settle;
    assert [op][..0] == [];
  }

  /** Faults signal every file in turn. */
  lemma {:induction false} SignalsInTurn<M, S>(k: Kernel<M, S>, m: M, files: seq<string>, more: seq<string>, depth: nat)
    ensures SignalAll(k, m, files + more, depth) == SignalAll(k, SignalAll(k, m, files, depth), more, depth)
    ensures forall file :: SignalAll(k, m, [file], depth) == k.signalFailure(m, "file:" + file, depth)
  {
    forall file
      ensures SignalAll(k, m, [file], depth) == k.signalFailure(m, "file:" + file, depth)
    {
      assert [file][..0] == [];
    }
    if more == [] {
      assert files + more == files;
    } else {
      var n := |more| - 1;
      assert (files + more)[..|files| + n] == files + more[..n];
      SignalsInTurn(k, m, files, more[..n], depth);
    }
  }

  /** What replaying one op on a settled memory does to it. */
  lemma OneOp<M(!new), S(!new)>(k: Kernel<M, S>, m: M)
    requires ResolutionLaws(k) && !k.needs(m)
    ensures forall u, s :: ReplayOps(k, m, [Ingest(u, s)]) == k.resolveAll(k.ingestDeferred(m, u, s))
    ensures forall n, d :: ReplayOps(k, m, [Failure(n, d)]) == k.signalFailure(m, n, d)
    ensures forall f: string, fs, d ::
              ReplayOps(k, m, [PageFault([f] + fs, d)])
              == k.ensureResident(SignalAll(k, k.signalFailure(m, "file:" + f, d), fs, d), "file:" + f)
    ensures forall d :: ReplayOps(k, m, [PageFault([], d)]) == m
    ensures forall u, b :: ReplayOps(k, m, [Recalled(Around(u), b)]) == k.ensureResident(m, u)
    ensures forall r: Recall, b | !r.Around? :: ReplayOps(k, m, [Recalled(r, b)]) == m
    ensures forall w :: ReplayOps(k, m, [Retune(w)]) == k.setWeights(m, w)
    ensures forall e, c, p, w :: ReplayOps(k, m, [Assert(e, c, p, w)]) == k.assertEvidence(m, e, c, p, w)
  {
    forall op: Op
      ensures ReplayOps(k, m, [op]) == Settle(k, Deferred(k, Replaying(m, false), op))
    {
      OneReplayed(k, m, op);
    }
    forall f: string, fs, d
      ensures SignalAll(k, m, [f] + fs, d) == SignalAll(k, k.signalFailure(m, "file:" + f, d), fs, d)
    {
      SignalsInTurn(k, m, [f], fs, d);
    }
  }

  lemma NothingReplayed<M, S>(k: Kernel<M, S>, m: M)
    ensures ReplayOps(k, m, []) == m
  {
  }

  lemma {:induction false} EagerAllSplit<M, S>(k: Kernel<M, S>, base: M, ops: seq<Op>, more: seq<Op>)
    ensures EagerAll(k, base, ops + more) == EagerAll(k, EagerAll(k, base, ops), more)
  {
    hide Eager;
    if more == [] {
      assert ops + more == ops;
    } else {
      var n := |more| - 1;
      assert (ops + more)[..|ops| + n] == ops + more[..n];
      EagerAllSplit(k, base, ops, more[..n]);
    }
  }

  lemma {:induction false} DeferredAppended<M, S>(k: Kernel<M, S>, r: Replaying<M>, ops: seq<Op>, more: seq<Op>)
    ensures DeferredAll(k, r, ops + more) == DeferredAll(k, DeferredAll(k, r, ops), more)
  {
    hide Deferred;
    if more == [] {
      assert ops + more == ops;
    } else {
      var n := |more| - 1;
      assert (ops + more)[..|ops| + n] == ops + more[..n];
      DeferredAppended(k, r, ops, more[..n]);
    }
  }

  /** After more ops that all settle, replay of everything is eager execution of these on the memory
      replayed before. */
  lemma ReplayAppended<M(!new), S(!new)>(k: Kernel<M, S>, base: M, ops: seq<Op>, more: seq<Op>)
    requires ResolutionLaws(k) && !k.needs(base)
    requires AllSettle(k, DeferredAll(k, Replaying(base, false), ops), more)
    ensures ReplayOps(k, base, ops + more) == EagerAll(k, ReplayOps(k, base, ops), more)
  {
    hide ResolutionLaws, Eager, Deferred, ReplayOps, DeferredAll, EagerAll, AllSettle;
    DeferredAppended(k, Replaying(base, false), ops, more);
    AllTracked(k, Replaying(base, false), ops);
    SettledIsEager(k, DeferredAll(k, Replaying(base, false), ops), more);
    ReplayIsSettled(k, base, ops);
    ReplayIsSettled(k, base, ops + more);
  }

  // ----- memories that differ only in what resolution owns -----

  ghost predicate Alike<M, S>(k: Kernel<M, S>, m: M, m': M)
  {
    k.pruned(m) == k.pruned(m')
  }

  lemma AlikeIngest<M(!new), S(!new)>(k: Kernel<M, S>, m: M, m': M, u: string, s: string)
    requires ResolutionLaws(k) && (Alike(k, m, m') || m' == k.resolveAll(m))
    ensures Alike(k, k.ingestDeferred(m, u, s), k.ingestDeferred(m', u, s))
    ensures k.resolveAll(k.ingestDeferred(m, u, s)) == k.resolveAll(k.ingestDeferred(m', u, s))
  {
    assert k.pruned(m) == k.pruned(m');
    var a, b := k.ingestDeferred(m, u, s), k.ingestDeferred(m', u, s);
    assert k.pruned(k.ingestDeferred(k.pruned(m), u, s)) == k.pruned(a);
    assert k.pruned(k.ingestDeferred(k.pruned(m'), u, s)) == k.pruned(b);
    assert k.resolveAll(k.pruned(a)) == k.resolveAll(a) && k.resolveAll(k.pruned(b)) == k.resolveAll(b);
  }

  lemma AlikeResolved<M(!new), S(!new)>(k: Kernel<M, S>, m: M, m': M)
    requires ResolutionLaws(k) && Alike(k, m, m')
    ensures k.resolveAll(m) == k.resolveAll(m')
  {
    assert k.resolveAll(k.pruned(m)) == k.resolveAll(m) && k.resolveAll(k.pruned(m')) == k.resolveAll(m');
  }

  predicate ReadsEdges(op: Op)
  {
    op.Failure? || op.PageFault? || op.Recalled?
  }

  lemma AlikeStep<M(!new), S(!new)>(k: Kernel<M, S>, r: Replaying<M>, live: M, op: Op)
    requires ResolutionLaws(k) && Alike(k, r.m, live) && !ReadsEdges(op)
    ensures Alike(k, Deferred(k, r, op).m, Eager(k, live, op))
    ensures op.Ingest? && Tracked(k, r) && !k.needs(live) ==> Settle(k, Deferred(k, r, op)) == Eager(k, live, op)
  {
    match op {
      case Ingest(u, s) =>
        AlikeIngest(k, r.m, live, u, s);
      case Retune(w) =>
        assert k.pruned(k.setWeights(k.pruned(r.m), w)) == k.pruned(k.setWeights(k.pruned(live), w));
      case Assert(e, c, p, w) =>
        assert k.pruned(k.assertEvidence(k.pruned(r.m), e, c, p, w))
            == k.pruned(k.assertEvidence(k.pruned(live), e, c, p, w));
    }
  }

  lemma {:induction false} AlikeThroughout<M(!new), S(!new)>(k: Kernel<M, S>, r: Replaying<M>, live: M, ops: seq<Op>)
    requires ResolutionLaws(k) && Tracked(k, r) && !k.needs(live) && Alike(k, r.m, live)
    requires forall op | op in ops :: !ReadsEdges(op)
    ensures Alike(k, DeferredAll(k, r, ops).m, EagerAll(k, live, ops))
    ensures !k.needs(EagerAll(k, live, ops))
  {
    hide ResolutionLaws, Deferred, Eager, Tracked, Alike;
    if ops == [] {
    } else {
      var n := |ops| - 1;
      AlikeThroughout(k, r, live, ops[..n]);
      AlikeStep(k, DeferredAll(k, r, ops[..n]), EagerAll(k, live, ops[..n]), ops[n]);
      EagerClean(k, EagerAll(k, live, ops[..n]), ops[n]);
    }
  }

  /** An assertion that did not settle is made good by the next ingest, unless an op that reads resolved
      edges came in between. */
  lemma NextIngestHeals<M(!new), S(!new)>(k: Kernel<M, S>, base: M, ops: seq<Op>, more: seq<Op>, u: string, s: string)
    requires ResolutionLaws(k) && !k.needs(base)
    requires ReplayOps(k, base, ops) == EagerAll(k, base, ops)
    requires forall op | op in more :: !ReadsEdges(op)
    ensures var all := ops + more + [Ingest(u, s)]; ReplayOps(k, base, all) == EagerAll(k, base, all)
  {
    hide ResolutionLaws, Deferred, Eager, Alike, Settle, Tracked;
    var r0 := Replaying(base, false);
    TrackedFrom(k, base);
    var r := DeferredAll(k, r0, ops);
    var live := EagerAll(k, base, ops);
    AllTracked(k, r0, ops);
    SettledAlike(k, r);
    AlikeThroughout(k, r, live, more);
    DeferredAppended(k, r0, ops, more);
    EagerAllSplit(k, base, ops, more);
    AllTracked(k, r0, ops + more);
    AlikeStep(k, DeferredAll(k, r, more), EagerAll(k, live, more), Ingest(u, s));
    var all := ops + more + [Ingest(u, s)];
    assert all[..|all| - 1] == ops + more;
  }

  lemma TrackedFrom<M, S>(k: Kernel<M, S>, base: M)
    requires !k.needs(base)
    ensures Tracked(k, Replaying(base, false)) && Settle(k, Replaying(base, false)) == base
  {
  }

  lemma SettledAlike<M(!new), S(!new)>(k: Kernel<M, S>, r: Replaying<M>)
    requires ResolutionLaws(k)
    ensures Alike(k, r.m, Settle(k, r))
  {
  }

  // ----- cutting a replay -----

  /** Nothing but retunes and assertions. */
  predicate Still(ops: seq<Op>)
  {
    forall op | op in ops :: op.Retune? || op.Assert?
  }

  /** Every assertion before the first ingest and the first reader of resolved edges settles. */
  ghost predicate CutSettles<M, S>(k: Kernel<M, S>, r: Replaying<M>, rest: seq<Op>)
  {
    forall i | 0 <= i < |rest| && Still(rest[..i]) :: SettlesAt(k, DeferredAll(k, r, rest[..i]), rest[i])
  }

  /** How a replay and one that was settled at the cut compare later on. */
  ghost predicate Agree<M, S>(k: Kernel<M, S>, a: Replaying<M>, b: Replaying<M>)
  {
    || a == b
    || (a.dirty && Alike(k, a.m, b.m) && (b.dirty || k.resolveAll(a.m) == b.m))
  }

  lemma AgreeSettled<M(!new), S(!new)>(k: Kernel<M, S>, a: Replaying<M>, b: Replaying<M>)
    requires ResolutionLaws(k) && Tracked(k, a) && Tracked(k, b) && Agree(k, a, b)
    ensures Settle(k, a) == Settle(k, b)
  {
    if Alike(k, a.m, b.m) {
      AlikeResolved(k, a.m, b.m);
    }
  }

  lemma CutStep<M(!new), S(!new)>(k: Kernel<M, S>, a: Replaying<M>, b: Replaying<M>, op: Op)
    requires ResolutionLaws(k) && Tracked(k, a) && Tracked(k, b) && Agree(k, a, b)
    requires a.dirty && !b.dirty ==> SettlesAt(k, a, op)
    ensures var a', b' := Deferred(k, a, op), Deferred(k, b, op);
            Agree(k, a', b') && (a'.dirty && !b'.dirty ==> a.dirty && !b.dirty && (op.Retune? || op.Assert?))
  {
    AgreeSettled(k, a, b);
    if a != b {
      match op {
        case Ingest(u, s) =>
          AlikeIngest(k, a.m, b.m, u, s);
        case Retune(w) =>
          assert k.pruned(k.setWeights(k.pruned(a.m), w)) == k.pruned(k.setWeights(k.pruned(b.m), w));
        case Assert(e, c, p, w) =>
          assert k.pruned(k.assertEvidence(k.pruned(a.m), e, c, p, w))
              == k.pruned(k.assertEvidence(k.pruned(b.m), e, c, p, w));
        case _ =>
      }
    }
  }

  lemma DeferredLast<M, S>(k: Kernel<M, S>, r: Replaying<M>, ops: seq<Op>)
    requires ops != []
    ensures DeferredAll(k, r, ops) == Deferred(k, DeferredAll(k, r, ops[..|ops| - 1]), ops[|ops| - 1])
  {
    hide Deferred;
  }

  lemma LastSettles<M, S>(k: Kernel<M, S>, r: Replaying<M>, rest: seq<Op>)
    requires CutSettles(k, r, rest) && rest != [] && Still(rest[..|rest| - 1])
    ensures SettlesAt(k, DeferredAll(k, r, rest[..|rest| - 1]), rest[|rest| - 1])
  {
    hide SettlesAt, DeferredAll, Still;
  }

  lemma StillGrows(ops: seq<Op>, op: Op)
    requires Still(ops) && (op.Retune? || op.Assert?)
    ensures Still(ops + [op])
  {
  }

  lemma {:induction false} CutAgrees<M(!new), S(!new)>(k: Kernel<M, S>, r: Replaying<M>, rest: seq<Op>)
    requires ResolutionLaws(k) && Tracked(k, r) && CutSettles(k, r, rest)
    ensures var a, b := DeferredAll(k, r, rest), DeferredAll(k, Replaying(Settle(k, r), false), rest);
            Tracked(k, a) && Tracked(k, b) && Agree(k, a, b) && (a.dirty && !b.dirty ==> Still(rest))
  {
    hide ResolutionLaws, Deferred, Settle, SettlesAt, Tracked, Agree, DeferredAll, CutSettles, Still;
    var c := Replaying(Settle(k, r), false);
    if rest == [] {
      CutStarts(k, r);
      NoneDeferred(k, r);
      NoneDeferred(k, c);
    } else {
      var n := |rest| - 1;
      CutPrefix(k, r, rest, n);
      CutAgrees(k, r, rest[..n]);
      var a, b := DeferredAll(k, r, rest[..n]), DeferredAll(k, c, rest[..n]);
      if a.dirty && !b.dirty {
        LastSettles(k, r, rest);
        if rest[n].Retune? || rest[n].Assert? {
          StillGrows(rest[..n], rest[n]);
        }
      }
      CutStep(k, a, b, rest[n]);
      StepTracked(k, a, rest[n]);
      StepTracked(k, b, rest[n]);
      DeferredLast(k, r, rest);
      DeferredLast(k, c, rest);
      assert rest == rest[..n] + [rest[n]];
    }
  }

  lemma NoneDeferred<M, S>(k: Kernel<M, S>, r: Replaying<M>)
    ensures DeferredAll(k, r, []) == r && Still([])
  {
  }

  lemma CutStarts<M(!new), S(!new)>(k: Kernel<M, S>, r: Replaying<M>)
    requires ResolutionLaws(k) && Tracked(k, r)
    ensures var c := Replaying(Settle(k, r), false); Tracked(k, c) && Agree(k, r, c) && Settle(k, c) == Settle(k, r)
  {
  }

  lemma CutPrefix<M, S>(k: Kernel<M, S>, r: Replaying<M>, rest: seq<Op>, n: nat)
    requires CutSettles(k, r, rest) && n <= |rest|
    ensures CutSettles(k, r, rest[..n])
  {
    hide SettlesAt, DeferredAll, Still;
    forall i | 0 <= i < n && Still(rest[..n][..i])
      ensures SettlesAt(k, DeferredAll(k, r, rest[..n][..i]), rest[..n][i])
    {
      assert rest[..n][..i] == rest[..i];
    }
  }

  lemma {:induction false} StillClean<M, S>(k: Kernel<M, S>, r: Replaying<M>, ops: seq<Op>)
    requires Still(ops)
    ensures DeferredAll(k, r, ops).dirty == r.dirty
  {
    if ops == [] {
    } else {
      var n := |ops| - 1;
      assert forall op | op in ops[..n] :: op in ops;
      assert ops[n] in ops;
      StillClean(k, r, ops[..n]);
    }
  }

  /** If both replays settle to the same before and after an op that follows only retunes and assertions,
      the op settles. */
  lemma SameMeansSettled<M(!new), S(!new)>(k: Kernel<M, S>, r: Replaying<M>, rest: seq<Op>, i: nat)
    requires ResolutionLaws(k) && Tracked(k, r) && i < |rest| && Still(rest[..i])
    requires var c := Replaying(Settle(k, r), false);
             && Settle(k, DeferredAll(k, r, rest[..i])) == Settle(k, DeferredAll(k, c, rest[..i]))
             && Settle(k, DeferredAll(k, r, rest[..i + 1])) == Settle(k, DeferredAll(k, c, rest[..i + 1]))
    ensures SettlesAt(k, DeferredAll(k, r, rest[..i]), rest[i])
  {
    var c := Replaying(Settle(k, r), false);
    assert rest[..i + 1][..i] == rest[..i];
    StillClean(k, c, rest[..i]);
    AllTracked(k, r, rest[..i]);
    AllTracked(k, r, rest[..i + 1]);
  }

  /** A replay may be settled and cut: going on from there gives the same memory at every later step,
      exactly when every assertion up to the next ingest or reader settles. */
  lemma ReplaySplit<M(!new), S(!new)>(k: Kernel<M, S>, base: M, ops: seq<Op>, n: nat)
    requires ResolutionLaws(k) && !k.needs(base) && n <= |ops|
    ensures var r := DeferredAll(k, Replaying(base, false), ops[..n]);
            && ReplayOps(k, base, ops[..n]) == Settle(k, r) && !k.needs(Settle(k, r))
            && ((forall t | n <= t <= |ops| :: SameAt(k, base, ops, n, t)) <==> CutSettles(k, r, ops[n..]))
  {
    hide ResolutionLaws, Settle, ReplayOps, DeferredAll, CutSettles, Deferred, Tracked;
    var r, rest := DeferredAll(k, Replaying(base, false), ops[..n]), ops[n..];
    TrackedFrom(k, base);
    AllTracked(k, Replaying(base, false), ops[..n]);
    ReplayIsSettled(k, base, ops[..n]);
    if CutSettles(k, r, rest) {
      forall t | n <= t <= |ops|
        ensures SameAt(k, base, ops, n, t)
      {
        CutAt(k, base, ops, n, t);
        CutPrefix(k, r, rest, t - n);
        CutAgrees(k, r, rest[..t - n]);
        AgreeSettled(k, DeferredAll(k, r, rest[..t - n]),
            DeferredAll(k, Replaying(Settle(k, r), false), rest[..t - n]));
      }
    }
    if forall t | n <= t <= |ops| :: SameAt(k, base, ops, n, t) {
      forall i | 0 <= i <= |rest|
        ensures SettleAlike(k, r, rest[..i])
      {
        assert SameAt(k, base, ops, n, n + i);
        assert (n + i) - n == i;
        CutAt(k, base, ops, n, n + i);
      }
      AlwaysSame(k, r, rest);
    }
  }

  /** Settling the cut replay and the other gives the same memory. */
  ghost predicate SettleAlike<M, S>(k: Kernel<M, S>, r: Replaying<M>, rest: seq<Op>)
  {
    Settle(k, DeferredAll(k, r, rest)) == Settle(k, DeferredAll(k, Replaying(Settle(k, r), false), rest))
  }

  /** Replay to `t` is the replay from the memory at `n`. */
  ghost predicate SameAt<M, S>(k: Kernel<M, S>, base: M, ops: seq<Op>, n: nat, t: nat)
    requires n <= t <= |ops|
  {
    ReplayOps(k, ReplayOps(k, base, ops[..n]), ops[n..t]) == ReplayOps(k, base, ops[..t])
  }

  lemma CutAt<M, S>(k: Kernel<M, S>, base: M, ops: seq<Op>, n: nat, t: nat)
    requires n <= t <= |ops|
    ensures SameAt(k, base, ops, n, t)
            <==> SettleAlike(k, DeferredAll(k, Replaying(base, false), ops[..n]), ops[n..][..t - n])
  {
    hide DeferredAll, Settle;
    assert ops[n..][..t - n] == ops[n..t];
    assert ops[..t] == ops[..n] + ops[n..t];
    DeferredAppended(k, Replaying(base, false), ops[..n], ops[n..t]);
  }

  lemma AlwaysSame<M(!new), S(!new)>(k: Kernel<M, S>, r: Replaying<M>, rest: seq<Op>)
    requires ResolutionLaws(k) && Tracked(k, r)
    requires forall i | 0 <= i <= |rest| :: SettleAlike(k, r, rest[..i])
    ensures CutSettles(k, r, rest)
  {
    hide ResolutionLaws, Settle, DeferredAll, SettlesAt, Tracked, Still;
    forall i | 0 <= i < |rest| && Still(rest[..i])
      ensures SettlesAt(k, DeferredAll(k, r, rest[..i]), rest[i])
    {
      assert SettleAlike(k, r, rest[..i]) && SettleAlike(k, r, rest[..i + 1]);
      SameMeansSettled(k, r, rest, i);
    }
  }

  /** Where every assertion settles, every cut does. */
  lemma AllCutsSettle<M, S>(k: Kernel<M, S>, r: Replaying<M>, ops: seq<Op>, n: nat)
    requires AllSettle(k, r, ops) && n <= |ops|
    ensures CutSettles(k, DeferredAll(k, r, ops[..n]), ops[n..])
  {
    hide SettlesAt, DeferredAll, Still;
    var rest := ops[n..];
    forall i | 0 <= i < |rest|
      ensures SettlesAt(k, DeferredAll(k, DeferredAll(k, r, ops[..n]), rest[..i]), rest[i])
    {
      DeferredAppended(k, r, ops[..n], rest[..i]);
      assert ops[..n] + rest[..i] == ops[..n + i];
      assert SettlesAt(k, DeferredAll(k, r, ops[..n + i]), ops[n + i]);
    }
  }

  // ----- a batch of ingests -----

  function IngestOps(files: seq<(string, string)>): (ops: seq<Op>)
    ensures |ops| == |files|
    ensures forall i | 0 <= i < |files| :: ops[i] == Ingest(files[i].0, files[i].1)
  {
    seq(|files|, i requires 0 <= i < |files| => Ingest(files[i].0, files[i].1))
  }

  function IngestAll<M, S>(k: Kernel<M, S>, m: M, files: seq<(string, string)>): M
  {
    if files == [] then m
    else
      var n := |files| - 1;
      k.ingestDeferred(IngestAll(k, m, files[..n]), files[n].0, files[n].1)
  }

  /** One resolution after a whole batch gives what resolving after every file gives. */
  lemma {:induction false} BatchIsEager<M(!new), S(!new)>(k: Kernel<M, S>, m: M, files: seq<(string, string)>)
    requires ResolutionLaws(k) && !k.needs(m)
    ensures Resolve(k, IngestAll(k, m, files)) == EagerAll(k, m, IngestOps(files))
  {
    if files == [] {
    } else {
      var n := |files| - 1;
      BatchIsEager(k, m, files[..n]);
      assert IngestOps(files)[..n] == IngestOps(files[..n]);
      IngestAbsorbs(k, IngestAll(k, m, files[..n]), files[n].0, files[n].1);
    }
  }
}
