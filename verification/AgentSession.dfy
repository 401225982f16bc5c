/** An event-sourced session: a live memory, the op-log that reproduces it, and the logs of its peers. */
module AgentSession {
  import opened Options
  import opened Timeline
  import opened Replay
  import opened SyncBundles
  import opened Names

  /** What a baseline reads as: nothing folded is the empty memory, and so is an unreadable snapshot. */
  ghost predicate Reads<M, S>(k: Kernel<M, S>, baseline: Option<S>, m: M)
  {
    match baseline
    case None => m == k.empty
    case Some(s) => k.fromJson(s) == Some(m) || (k.fromJson(s).None? && m == k.empty)
  }

  /** The memory a timeline replays on top of. */
  function Base<M, S>(k: Kernel<M, S>, baseline: Option<S>): (m: M)
    ensures Reads(k, baseline, m)
  {
    match baseline
    case None => k.empty
    case Some(s) =>
      match k.fromJson(s)
      case Some(m) => m
      case None => k.empty
  }

  /** How many retained ops lie at or below logical step `step`. */
  function TailOf(folded: nat, length: nat, step: nat): (n: nat)
    ensures n <= length
  {
    if step <= folded then 0 else if step - folded <= length then step - folded else length
  }

  /** The memory after the first `step` logical ops. */
  function ReplayAt<M, S>(k: Kernel<M, S>, baseline: Option<S>, folded: nat, ops: seq<Op>, step: nat): M
  {
    ReplayOps(k, Base(k, baseline), ops[..TailOf(folded, |ops|, step)])
  }

  function OpsOf(foreign: map<string, ForeignLog>): map<string, seq<Op>>
  {
    map id | id in foreign :: foreign[id].ops
  }

  /** The timelines a session knows, by agent; a foreign log under the own id would replace the own. */
  function Streams(agent: string, ops: seq<Op>, foreign: map<string, ForeignLog>): map<string, seq<Op>>
  {
    map[(if agent == "" then "local" else agent) := ops] + OpsOf(foreign)
  }

  /** The streams one after another, in the given order. */
  function Concatenated(streams: map<string, seq<Op>>, ids: seq<string>): seq<Op>
    requires forall id | id in ids :: id in streams
  {
    if ids == [] then []
    else Concatenated(streams, ids[..|ids| - 1]) + streams[ids[|ids| - 1]]
  }

  /** Every timeline, replayed from empty in canonical order, before the last resolution. */
  function MergedPending<M, S>(k: Kernel<M, S>, streams: map<string, seq<Op>>): Replaying<M>
  {
    DeferredAll(k, Replaying(k.empty, false), Concatenated(streams, Sorted(streams.Keys)))
  }

  /** The shared memory. */
  function MergedView<M, S>(k: Kernel<M, S>, streams: map<string, seq<Op>>): M
  {
    Settle(k, MergedPending(k, streams))
  }

  // ----- what the shared memory contains -----

  /** The own timeline and every foreign one, as they are. */
  lemma StreamsHold(agent: string, ops: seq<Op>, foreign: map<string, ForeignLog>)
    ensures var own, streams := if agent == "" then "local" else agent, Streams(agent, ops, foreign);
            && streams.Keys == foreign.Keys + {own}
            && (forall x | x in foreign :: streams[x] == foreign[x].ops)
            && (own !in foreign ==> streams[own] == ops)
  {
  }

  lemma {:induction false} ConcatenatedAlike(streams: map<string, seq<Op>>, more: map<string, seq<Op>>,
                                             ids: seq<string>)
    requires forall id | id in ids :: id in streams && id in more && streams[id] == more[id]
    ensures Concatenated(streams, ids) == Concatenated(more, ids)
  {
    if ids == [] {
    } else {
      var n := |ids| - 1;
      assert forall id | id in ids[..n] :: id in ids;
      ConcatenatedAlike(streams, more, ids[..n]);
    }
  }

  /** No timeline gives the empty memory. */
  lemma MergedNone<M, S>(k: Kernel<M, S>)
    ensures MergedPending(k, map[]) == Replaying(k.empty, false)
  {
  }

  /** The timeline of the last agent in id order is replayed in full after all the others. So, from
      nothing up, every op of every known timeline is applied once, agent by agent in ascending order. */
  lemma MergedInOrder<M, S>(k: Kernel<M, S>, rest: map<string, seq<Op>>, x: string, ops: seq<Op>)
    requires forall id | id in rest :: Before(id, x)
    ensures x !in rest && MergedPending(k, rest[x := ops]) == DeferredAll(k, MergedPending(k, rest), ops)
  {
    hide DeferredAll, Sorted, Before, Concatenated;
    if x in rest {
      BeforeAsymmetric(x, x);
    }
    var all := rest[x := ops];
    var ids := Sorted(rest.Keys);
    assert all.Keys == rest.Keys + {x};
    SortedLast(rest.Keys, x);
    ConcatenatedAlike(rest, all, ids);
    LastConcatenated(all, ids, x);
    DeferredAppended(k, Replaying(k.empty, false), Concatenated(rest, ids), ops);
  }

  lemma LastConcatenated(streams: map<string, seq<Op>>, ids: seq<string>, x: string)
    requires x in streams && forall id | id in ids :: id in streams
    ensures forall id | id in ids + [x] :: id in streams
    ensures Concatenated(streams, ids + [x]) == Concatenated(streams, ids) + streams[x]
  {
    assert (ids + [x])[..|ids|] == ids;
  }

  /** One timeline alone is replayed as it is. */
  lemma MergedAlone<M, S>(k: Kernel<M, S>, x: string, ops: seq<Op>)
    ensures MergedView(k, map[x := ops]) == ReplayOps(k, k.empty, ops)
  {
    hide DeferredAll, Sorted, MergedPending, Settle;
    var rest: map<string, seq<Op>> := map[];
    MergedNone(k);
    MergedInOrder(k, rest, x, ops);
    assert rest[x := ops] == map[x := ops];
  }

  lemma BaseClean<M(!new), S(!new)>(k: Kernel<M, S>, baseline: Option<S>)
    requires ResolutionLaws(k)
    ensures !k.needs(Base(k, baseline))
  {
  }

  class AgentSession<M(!new), S(!new)> {
    const k: Kernel<M, S>
    const h: Hasher
    const commit: S -> string
    const sigs: Signatures
    const seed: Option<string>

    var live: M
    var ops: seq<Op>
    var baseline: Option<S>
    var folded: nat
    var chain: seq<string>
    var anchor: string
    var baselineHash: string
    var agent: string
    var foreign: map<string, ForeignLog>
    var knownKeys: map<string, string>

    /** The chain and the commitment are the ones this history has. */
    ghost predicate ChainValid()
      reads this
    {
      && chain == ChainOver(h, anchor, folded, ops)
      && baselineHash == BaselineCommitment(commit, baseline)
    }

    /** The live memory is what replaying the whole timeline gives. */
    ghost predicate InSync()
      reads this
    {
      live == ReplayOps(k, Base(k, baseline), ops)
    }

    /** Where a replay of the whole timeline stands before it settles. */
    ghost function Awaiting(): Replaying<M>
      reads this
    {
      DeferredAll(k, Replaying(Base(k, baseline), false), ops)
    }

    /** The live memory is settled, and differs from the replay at most in edges that resolution owns. */
    ghost predicate NearSync()
      reads this
    {
      !k.needs(live) && Alike(k, Awaiting().m, live)
    }

    /** From the current floor on, replays are what they were for an older timeline exactly when the
        baseline reads back as that timeline's memory at the floor, and the assertions that follow the
        floor settle there. */
    ghost predicate FoldKeepsReplays(baseline': Option<S>, folded': nat, ops': seq<Op>, floor: M)
      requires folded' <= folded <= folded' + |ops'|
      reads this
    {
      SameReplays(k, baseline', folded', ops', baseline, folded, ops)
      <==> Reads(k, baseline, floor) && FoldSettles(k, baseline', ops', folded - folded')
    }

    ghost predicate PeersValid()
      reads this
    {
      LengthsMatch(foreign) && AllVerified(h, foreign)
    }

    ghost predicate Valid()
      reads this
    {
      ResolutionLaws(k) && ChainValid() && InSync() && PeersValid()
    }

    ghost function PeersOf(): Peers
      reads this
    {
      Peers(agent, foreign, knownKeys)
    }

    function Len(): nat
      reads this
    {
      folded + |ops|
    }

    /** One hash committing to the whole recorded history. */
    function TimelineHead(): string
      reads this
    {
      Head(anchor, chain)
    }

    constructor (k: Kernel<M, S>, h: Hasher, commit: S -> string, sigs: Signatures, seed: Option<string>)
      requires ResolutionLaws(k)
      ensures Valid() && this.k == k && this.h == h && this.commit == commit && this.sigs == sigs && this.seed == seed
      ensures ops == [] && folded == 0 && anchor == GENESIS && live == k.empty && baseline == None
      ensures agent == "" && foreign == map[] && knownKeys == map[]
    {
      this.k, this.h, this.commit, this.sigs, this.seed := k, h, commit, sigs, seed;
      live := k.empty;
      ops, baseline, folded, chain := [], None, 0, [];
      anchor, baselineHash := GENESIS, "";
      agent, foreign, knownKeys := "", map[], map[];
    }

    /** The state a fork or a restart starts from. */
    constructor FromParts(trunk: AgentSession<M, S>, live: M, ops: seq<Op>, chain: seq<string>)
      ensures this.k == trunk.k && this.h == trunk.h && this.commit == trunk.commit
      ensures this.sigs == trunk.sigs && this.seed == trunk.seed
      ensures this.live == live && this.ops == ops && this.chain == chain
      ensures baseline == trunk.baseline && folded == trunk.folded && anchor == trunk.anchor
      ensures baselineHash == trunk.baselineHash && PeersOf() == trunk.PeersOf()
    {
      this.k, this.h, this.commit, this.sigs, this.seed := trunk.k, trunk.h, trunk.commit, trunk.sigs, trunk.seed;
      this.live, this.ops, this.chain := live, ops, chain;
      baseline, folded, anchor, baselineHash := trunk.baseline, trunk.folded, trunk.anchor, trunk.baselineHash;
      agent, foreign, knownKeys := trunk.agent, trunk.foreign, trunk.knownKeys;
    }

    /** Append an op and extend the chain: the one write path of the timeline. */
    method Record(op: Op)
      requires ChainValid()
      modifies this`ops, this`chain
      ensures ChainValid()
      ensures ops == old(ops) + [op]
      ensures old(chain) <= chain
    {
      hide Link;
      var prev := Head(anchor, chain);
      var step := folded + |ops|;
      assert (ops + [op])[..|ops|] == ops;
      chain := chain + [Link(h, prev, step, op)];
      ops := ops + [op];
    }

    /** Record and apply an ingest, resolving at once. */
    method Ingest(uri: string, source: string)
      requires ChainValid()
      modifies this`ops, this`chain, this`live
      ensures ChainValid() && (old(Valid()) ==> Valid())
      ensures ops == old(ops) + [Op.Ingest(uri, source)]
      ensures live == Eager(k, old(live), Op.Ingest(uri, source))
      ensures ResolutionLaws(k) && old(NearSync()) ==> InSync()
    {
      hide ResolutionLaws, ReplayOps, ChainOver, Alike, DeferredAll, Deferred;
      if ResolutionLaws(k) {
        SyncAfter(Op.Ingest(uri, source));
      }
      Record(Op.Ingest(uri, source));
      live := k.ingestDeferred(live, uri, source);
      live := Resolve(k, live);
    }

    /** Record many ingests, applying them deferred with one resolution at the end. */
    method IngestBatch(files: seq<(string, string)>)
      requires ChainValid()
      modifies this`ops, this`chain, this`live
      ensures ChainValid() && (old(Valid()) ==> Valid())
      ensures ops == old(ops) + IngestOps(files)
      ensures live == Resolve(k, IngestAll(k, old(live), files))
      ensures old(Valid()) ==> live == EagerAll(k, old(live), IngestOps(files))
    {
      hide ResolutionLaws, ReplayOps, ChainOver, EagerAll, DeferredAll, AllSettle;
      ghost var all := IngestOps(files);
      if Valid() {
        LiveClean();
        IngestsSettle(k, Awaiting(), files);
        BaseClean(k, baseline);
        ReplayAppended(k, Base(k, baseline), ops, all);
        BatchIsEager(k, live, files);
      }
      assert all[..0] == [];
      for i := 0 to |files|
        invariant ChainValid()
        invariant ops == old(ops) + all[..i]
        invariant live == IngestAll(k, old(live), files[..i])
      {
        assert files[..i + 1][..i] == files[..i];
        assert all[..i + 1] == all[..i] + [all[i]];
        Record(Op.Ingest(files[i].0, files[i].1));
        live := k.ingestDeferred(live, files[i].0, files[i].1);
      }
      assert files[..|files|] == files && all[..|files|] == all;
      live := Resolve(k, live);
    }

    method SignalFailure(node: string, depth: nat)
      requires ChainValid()
      modifies this`ops, this`chain, this`live
      ensures ChainValid() && (old(Valid()) ==> Valid())
      ensures ops == old(ops) + [Failure(node, depth)]
      ensures live == Eager(k, old(live), Failure(node, depth))
    {
      hide ResolutionLaws, ReplayOps, ChainOver, Alike, DeferredAll, Deferred;
      if ResolutionLaws(k) {
        SyncAfter(Failure(node, depth));
      }
      Record(Failure(node, depth));
      live := k.signalFailure(live, node, depth);
    }

    /** A recall around a node pages its region in first; the window itself is only read. */
    method Recalling(recall: Recall, budget: nat)
      requires ChainValid()
      modifies this`ops, this`chain, this`live
      ensures ChainValid() && (old(Valid()) ==> Valid())
      ensures ops == old(ops) + [Recalled(recall, budget)]
      ensures live == Eager(k, old(live), Recalled(recall, budget))
    {
      hide ResolutionLaws, ReplayOps, ChainOver, Alike, DeferredAll, Deferred;
      if ResolutionLaws(k) {
        SyncAfter(Recalled(recall, budget));
      }
      if recall.Around? {
        live := k.ensureResident(live, recall.uri);
      }
      Record(Recalled(recall, budget));
    }

    /** Pressure on every faulting file, then the first one's region is paged in. */
    method FaultOn(files: seq<string>, depth: nat)
      requires ChainValid()
      modifies this`ops, this`chain, this`live
      ensures ChainValid() && (old(Valid()) ==> Valid())
      ensures ops == old(ops) + [PageFault(files, depth)]
      ensures live == Eager(k, old(live), PageFault(files, depth))
    {
      hide ResolutionLaws, ReplayOps, ChainOver, Alike, DeferredAll, Deferred;
      if ResolutionLaws(k) {
        SyncAfter(PageFault(files, depth));
      }
      for i := 0 to |files|
        invariant ChainValid() && ops == old(ops) && chain == old(chain)
        invariant live == SignalAll(k, old(live), files[..i], depth)
      {
        assert files[..i + 1][..i] == files[..i];
        live := k.signalFailure(live, FILE_PREFIX + files[i], depth);
      }
      assert files[..|files|] == files;
      if files != [] {
        live := k.ensureResident(live, FILE_PREFIX + files[0]);
      }
      Record(PageFault(files, depth));
    }

    /** Assert at once; the replay asserts before it resolves what is pending. So the session stays in sync
        exactly when the assertion settles, and otherwise the next ingest brings it back. */
    method AssertEvidence(evidence: string, claim: string, supports: bool, weight: Float)
      requires ChainValid()
      modifies this`ops, this`chain, this`live
      ensures ChainValid()
      ensures ops == old(ops) + [Assert(evidence, claim, supports, weight)]
      ensures live == Eager(k, old(live), Assert(evidence, claim, supports, weight))
      ensures old(Valid()) ==>
                (Valid() <==> SettlesAt(k, old(Awaiting()), Assert(evidence, claim, supports, weight)))
      ensures ResolutionLaws(k) && old(NearSync()) ==> NearSync()
      ensures old(Valid()) ==> old(NearSync())
    {
      hide ResolutionLaws, ReplayOps, ChainOver, Alike, DeferredAll, Deferred;
      if ResolutionLaws(k) {
        SyncAfter(Assert(evidence, claim, supports, weight));
      }
      Record(Assert(evidence, claim, supports, weight));
      live := k.assertEvidence(live, evidence, claim, supports, weight);
    }

    method AdoptWeights(weights: seq<Float>)
      requires ChainValid()
      modifies this`ops, this`chain, this`live
      ensures ChainValid() && (old(Valid()) ==> Valid())
      ensures ops == old(ops) + [Retune(weights)]
      ensures ResolutionLaws(k) && old(NearSync()) ==> NearSync()
      ensures live == Eager(k, old(live), Retune(weights))
    {
      hide ResolutionLaws, ReplayOps, ChainOver, Alike, DeferredAll, Deferred;
      if ResolutionLaws(k) {
        SyncAfter(Retune(weights));
      }
      live := k.setWeights(live, weights);
      Record(Retune(weights));
    }

    lemma LiveClean()
      requires ResolutionLaws(k) && InSync()
      ensures !k.needs(live) && Tracked(k, Awaiting()) && Settle(k, Awaiting()) == live && NearSync()
    {
      hide ResolutionLaws, ReplayOps, DeferredAll, Settle, Tracked, Alike;
      BaseClean(k, baseline);
      var r := Replaying(Base(k, baseline), false);
      TrackedFrom(k, Base(k, baseline));
      AllTracked(k, r, ops);
      ReplayIsSettled(k, Base(k, baseline), ops);
      SettledAlike(k, Awaiting());
    }

    /** What one more op, recorded and applied at once, does to the synchrony of the two memories. */
    lemma SyncAfter(op: Op)
      requires ResolutionLaws(k)
      ensures var base, live' := Base(k, baseline), Eager(k, live, op);
              && (InSync() ==> NearSync())
              && (InSync() ==> (ReplayOps(k, base, ops + [op]) == live' <==> SettlesAt(k, Awaiting(), op)))
              && (NearSync() && !ReadsEdges(op) ==>
                    && !k.needs(live') && Alike(k, DeferredAll(k, Replaying(base, false), ops + [op]).m, live')
                    && (op.Ingest? ==> ReplayOps(k, base, ops + [op]) == live'))
    {
      hide ResolutionLaws, ReplayOps, DeferredAll, Settle, Tracked, Alike, Deferred, Eager, SettlesAt;
      var base := Base(k, baseline);
      BaseClean(k, baseline);
      TrackedFrom(k, base);
      AllTracked(k, Replaying(base, false), ops);
      ReplayIsSettled(k, base, ops + [op]);
      DeferredLast(k, Replaying(base, false), ops + [op]);
      assert (ops + [op])[..|ops|] == ops;
      if InSync() {
        LiveClean();
        StepInSync(k, Awaiting(), op);
      }
      if NearSync() && !ReadsEdges(op) {
        AlikeStep(k, Awaiting(), live, op);
        EagerClean(k, live, op);
      }
    }

    /** Rebuild the memory after the first `step` ops. */
    method ReplayTo(step: nat) returns (m: M)
      ensures m == ReplayAt(k, baseline, folded, ops, step)
    {
      m := Base(k, baseline);
      var tail := TailOf(folded, |ops|, step);
      var dirty;
      m, dirty := ApplyAll(k, m, false, ops[..tail]);
      if dirty {
        m := Resolve(k, m);
      }
    }

    /** Fold all but the last `keep` ops into the baseline. The head, the length and the chain's
        validity never change, whatever the snapshot keeps and however often this is done. Replays
        from the new floor on are unchanged exactly when the snapshot reads back as the memory it was
        taken of and the assertions after the floor, up to the next ingest or reader, settle there; then a
        session in sync is still in sync. */
    method Compact(keep: nat)
      requires ChainValid() && PeersValid()
      modifies this
      ensures live == old(live) && PeersOf() == old(PeersOf())
      ensures ChainValid() && PeersValid()
      ensures Len() == old(Len()) && TimelineHead() == old(TimelineHead())
      ensures var fold := if |old(ops)| <= keep then 0 else |old(ops)| - keep;
              var floor := old(ReplayOps(k, Base(k, baseline), ops[..fold]));
              if fold == 0 || k.toJson(floor).None? then
                ops == old(ops) && folded == old(folded) && baseline == old(baseline) && anchor == old(anchor)
                    && chain == old(chain)
              else
                && ops == old(ops)[fold..] && folded == old(folded) + fold && baseline == k.toJson(floor)
                && (ResolutionLaws(k) ==> FoldKeepsReplays(old(baseline), old(folded), old(ops), floor))
                && (old(Valid() && FoldSettles(k, baseline, ops, fold)) && Reads(k, baseline, floor) ==> Valid())
                && (ResolutionLaws(k) && KeepsSnapshots(k) && old(FoldSettles(k, baseline, ops, fold)) ==>
                      SameReplays(k, old(baseline), old(folded), old(ops), baseline, folded, ops))
      ensures ops == old(ops) && old(Valid()) ==> Valid()
    {
      hide ResolutionLaws, ReplayOps, ChainOver, ReplayAt, Base, AllVerified, LengthsMatch, SameReplays, FoldSettles;
      if |ops| <= keep {
        return;
      }
      var fold := |ops| - keep;
      var floor := ReplayTo(folded + fold);
      ReplayAtFold(k, baseline, folded, ops, fold);
      var snapshot := k.toJson(floor);
      if snapshot.Some? {
        if ResolutionLaws(k) {
          BaseClean(k, baseline);
          ReplayClean(k, Base(k, baseline), ops[..fold]);
        }
        FoldInto(fold, snapshot.value);
      }
    }

    /** Replace the first `fold` ops by a snapshot; the last folded link becomes the anchor. */
    method FoldInto(fold: nat, snapshot: S)
      requires ChainValid() && PeersValid() && 0 < fold <= |ops|
      modifies this
      ensures live == old(live) && PeersOf() == old(PeersOf())
      ensures ChainValid() && PeersValid()
      ensures Len() == old(Len()) && TimelineHead() == old(TimelineHead())
      ensures ops == old(ops)[fold..] && folded == old(folded) + fold && baseline == Some(snapshot)
      ensures var floor := old(ReplayOps(k, Base(k, baseline), ops[..fold]));
              && (ResolutionLaws(k) ==> FoldKeepsReplays(old(baseline), old(folded), old(ops), floor))
              && (old(Valid() && FoldSettles(k, baseline, ops, fold)) && Reads(k, baseline, floor) ==> Valid())
    {
      hide ResolutionLaws, ReplayOps, ChainOver, ReplayAt, Base, AllVerified, LengthsMatch, SameReplays, FoldSettles;
      if ResolutionLaws(k) {
        CompactionReplays(k, baseline, folded, ops, fold, Some(snapshot));
      }
      CompactedChain(h, anchor, folded, ops, fold);
      anchor := chain[fold - 1];
      chain := chain[fold..];
      baselineHash := commit(snapshot);
      baseline := Some(snapshot);
      ops := ops[fold..];
      folded := folded + fold;
    }

    /** Check the baseline commitment and every link. */
    method VerifyTimeline() returns (r: LogIntegrity)
      ensures ChainValid() ==> r.valid
      ensures r.valid ==> ChainValid() || (chain == [] && anchor == "" && baselineHash == "")
    {
      r := VerifyTimelineParts(h, commit, anchor, folded, ops, chain, baseline, baselineHash);
    }

    /** A new session whose history is this one's up to `step`, and whose memory is the replay to it. */
    method ForkAt(step: nat) returns (branch: AgentSession<M, S>)
      requires ChainValid() && PeersValid()
      ensures fresh(branch) && branch.ChainValid() && branch.PeersValid()
      ensures ResolutionLaws(k) ==> branch.Valid()
      ensures branch.k == k && branch.PeersOf() == PeersOf()
      ensures branch.folded == folded && branch.baseline == baseline
      ensures branch.ops == ops[..TailOf(folded, |ops|, step)]
      ensures branch.chain == chain[..TailOf(folded, |ops|, step)]
      ensures branch.live == ReplayAt(k, baseline, folded, ops, step)
    {
      hide ResolutionLaws, ReplayOps, ChainOver;
      var tail := TailOf(folded, |ops|, step);
      var m := ReplayTo(step);
      ChainPrefix(h, anchor, folded, ops, tail);
      branch := new AgentSession.FromParts(this, m, ops[..tail], chain[..tail]);
    }

    method ExportBundle(since: nat) returns (r: SyncResult<SyncBundle>)
      requires ChainValid()
      ensures r == Export(sigs, seed, agent, anchor, folded, ops, chain, since)
    {
      if agent == "" {
        return Refused(NoAgentId);
      }
      if since < folded {
        return Refused(CompactedHistory);
      }
      var start := if since - folded <= |ops| then since - folded else |ops|;
      var before := if start == 0 then anchor else chain[start - 1];
      var bundle := SyncBundle(1, agent, since, before, ops[start..], chain[start..], None, None);
      if seed.Some? {
        bundle := bundle.(pubkey := Some(sigs.pubkeyOf(seed.value)), sig := Some(sigs.sign(seed.value, bundle)));
      }
      return SyncResult.Ok(bundle);
    }

    /** Verify a bundle before trusting it, then append what is new; a refusal changes nothing. */
    method ImportBundle(b: SyncBundle) returns (r: SyncResult<nat>)
      requires PeersValid()
      modifies this`foreign, this`knownKeys
      ensures PeersValid()
      ensures (old(ChainValid()) ==> ChainValid()) && (old(Valid()) ==> Valid())
      ensures (r, PeersOf()) == Import(h, sigs, old(PeersOf()), b)
    {
      hide AllVerified, LengthsMatch, CheckLinks, CheckContinuity, CheckKey, ResolutionLaws, ReplayOps, ChainOver,
           BaselineCommitment, Base, Import, Known;
      ImportKeeps(h, sigs, PeersOf(), b);
      ImportRefuses(h, sigs, PeersOf(), b);
      if b.agent == "" {
        return Refused(Tampered(NoBundleAgent));
      }
      if b.agent == agent {
        return Refused(SelfImport);
      }
      var pin := CheckKey(sigs, knownKeys, b);
      if pin.Refused? {
        return Refused(pin.error);
      }
      var broken := BrokenLink(b);
      if broken.Some? {
        return Refused(broken.value);
      }
      LinksChecked(b);
      var divergence := Discontinuity(b);
      if divergence.Some? {
        return Refused(divergence.value);
      }
      var known := Known(foreign, b.agent);
      ContinuityStarts(known, b);
      ImportAccepts(h, sigs, PeersOf(), b);
      var rest := |known.ops| - b.firstSeq;
      var overlap := if rest < |b.ops| then rest else |b.ops|;
      var added := |b.ops| - overlap;
      foreign := foreign[b.agent := ForeignLog(known.ops + b.ops[overlap..], known.chain + b.chain[overlap..])];
      if pin.value.Some? {
        knownKeys := knownKeys[b.agent := pin.value.value];
      }
      return SyncResult.Ok(added);
    }

    lemma LinksChecked(b: SyncBundle)
      requires CheckLinks(h, b).None?
      ensures |b.ops| == |b.chain|
    {
    }

    /** Internal verification: every link recomputes from the bundle's own anchor. */
    method BrokenLink(b: SyncBundle) returns (r: Option<SyncError>)
      ensures r == CheckLinks(h, b)
    {
      hide Link;
      if |b.ops| != |b.chain| {
        return Some(Tampered(LengthsDiffer));
      }
      if b.firstSeq == 0 && b.anchor != GENESIS {
        return Some(Tampered(GenesisAnchor));
      }
      var prev := b.anchor;
      for i := 0 to |b.ops|
        invariant prev == Head(b.anchor, b.chain[..i])
        invariant FirstBroken(h, b, 0) == FirstBroken(h, b, i)
      {
        assert LinkHolds(h, b.anchor, b.firstSeq, b.ops, b.chain, i)
               == (Link(h, prev, b.firstSeq + i, b.ops[i]) == b.chain[i]);
        if Link(h, prev, b.firstSeq + i, b.ops[i]) != b.chain[i] {
          return Some(Tampered(BadLink(b.firstSeq + i + 1)));
        }
        prev := b.chain[i];
      }
      return None;
    }

    /** Continuity against what is already known of the bundle's agent. */
    method Discontinuity(b: SyncBundle) returns (r: Option<SyncError>)
      requires LengthsMatch(foreign) && |b.ops| == |b.chain|
      ensures |Known(foreign, b.agent).ops| == |Known(foreign, b.agent).chain|
      ensures r == CheckContinuity(Known(foreign, b.agent), b)
    {
      var known := Known(foreign, b.agent);
      if b.firstSeq > |known.ops| {
        return Some(Gap(|known.ops|, b.firstSeq));
      }
      if b.agent in foreign {
        if b.firstSeq > 0 && b.anchor != known.chain[b.firstSeq - 1] {
          return Some(Diverged(b.firstSeq));
        }
        var i := 0;
        while i < |b.chain| && b.firstSeq + i < |known.chain|
          invariant 0 <= i <= |b.chain|
          invariant FirstContradicted(known.chain, b, 0) == FirstContradicted(known.chain, b, i)
        {
          if known.chain[b.firstSeq + i] != b.chain[i] {
            return Some(Diverged(b.firstSeq + i + 1));
          }
          i := i + 1;
        }
      }
      return None;
    }

    /** Replay every known timeline from empty, in canonical agent order. */
    method MergedMemory() returns (m: M)
      ensures m == MergedView(k, Streams(agent, ops, foreign))
    {
      hide Deferred, Sorted;
      var streams := Streams(agent, ops, foreign);
      var ids := Sorted(streams.Keys);
      m := k.empty;
      var dirty := false;
      for i := 0 to |ids|
        invariant Replaying(m, dirty) == DeferredAll(k, Replaying(k.empty, false), Concatenated(streams, ids[..i]))
      {
        assert ids[i] in streams;
        assert ids[..i + 1][..i] == ids[..i];
        DeferredAppended(k, Replaying(k.empty, false), Concatenated(streams, ids[..i]), streams[ids[i]]);
        m, dirty := ApplyAll(k, m, dirty, streams[ids[i]]);
      }
      assert ids[..|ids|] == ids;
      if dirty {
        m := Resolve(k, m);
      }
    }
  }

  lemma IngestsSettle<M, S>(k: Kernel<M, S>, r: Replaying<M>, files: seq<(string, string)>)
    ensures AllSettle(k, r, IngestOps(files))
  {
    hide DeferredAll;
  }

  /** From the second timeline's floor on, the two replay to the same memories. */
  ghost predicate SameReplays<M, S>(k: Kernel<M, S>, baseline: Option<S>, folded: nat, ops: seq<Op>,
                                    baseline': Option<S>, folded': nat, ops': seq<Op>)
  {
    forall step | folded' <= step <= folded' + |ops'| ::
      ReplayAt(k, baseline', folded', ops', step) == ReplayAt(k, baseline, folded, ops, step)
  }

  /** The assertions after a cut, up to the next ingest or reader, settle there. */
  ghost predicate FoldSettles<M, S>(k: Kernel<M, S>, baseline: Option<S>, ops: seq<Op>, fold: nat)
    requires fold <= |ops|
  {
    CutSettles(k, DeferredAll(k, Replaying(Base(k, baseline), false), ops[..fold]), ops[fold..])
  }

  /** A settled memory that is written reads back as it was. */
  ghost predicate KeepsSnapshots<M(!new), S>(k: Kernel<M, S>)
  {
    forall m: M | !k.needs(m) && k.toJson(m).Some? :: k.fromJson(k.toJson(m).value) == Some(m)
  }

  /** A replay up to the floor is what the baseline reads as; past it, as many ops more as there are, up
      to the step. */
  lemma ReplayedSteps<M, S>(k: Kernel<M, S>, baseline: Option<S>, folded: nat, ops: seq<Op>, step: nat, m: M)
    requires Reads(k, baseline, m)
    ensures var r := ReplayAt(k, baseline, folded, ops, step);
            && (step <= folded ==> r == m)
            && (folded <= step <= folded + |ops| ==> r == ReplayOps(k, m, ops[..step - folded]))
            && (step >= folded + |ops| ==> r == ReplayOps(k, m, ops))
  {
    hide ReplayOps;
    NothingReplayed(k, m);
    assert ops[..0] == [] && ops[..|ops|] == ops;
  }

  lemma ReplayClean<M(!new), S(!new)>(k: Kernel<M, S>, base: M, ops: seq<Op>)
    requires ResolutionLaws(k) && !k.needs(base)
    ensures !k.needs(ReplayOps(k, base, ops))
  {
    hide ResolutionLaws, DeferredAll, ReplayOps, Settle;
    TrackedFrom(k, base);
    AllTracked(k, Replaying(base, false), ops);
    ReplayIsSettled(k, base, ops);
  }

  /** Folding a prefix into a snapshot changes no replay from the new floor on exactly when the snapshot
      reads back as the memory at the floor, and the assertions after the floor settle there. */
  lemma CompactionReplays<M(!new), S(!new)>(k: Kernel<M, S>, baseline: Option<S>, folded: nat, ops: seq<Op>,
                                            fold: nat, snapshot: Option<S>)
    requires ResolutionLaws(k) && fold <= |ops|
    ensures var floor := ReplayOps(k, Base(k, baseline), ops[..fold]);
            && (SameReplays(k, baseline, folded, ops, snapshot, folded + fold, ops[fold..])
                <==> Reads(k, snapshot, floor) && FoldSettles(k, baseline, ops, fold))
            && (Reads(k, snapshot, floor) && FoldSettles(k, baseline, ops, fold) ==>
                  ReplayOps(k, floor, ops[fold..]) == ReplayOps(k, Base(k, baseline), ops))
  {
    hide ResolutionLaws, ReplayOps, DeferredAll, CutSettles, Settle, ReplayAt;
    var base := Base(k, baseline);
    var floor := ReplayOps(k, base, ops[..fold]);
    BaseClean(k, baseline);
    ReplaySplit(k, base, ops, fold);
    var s := folded + fold;
    ReplayAtFold(k, baseline, folded, ops, fold);
    ReplayAtFold(k, snapshot, s, ops[fold..], 0);
    NothingReplayed(k, Base(k, snapshot));
    assert ops[fold..][..0] == [] && |ops[fold..]| == |ops| - fold;
    assert ReplayAt(k, snapshot, s, ops[fold..], s) == Base(k, snapshot);
    if Base(k, snapshot) == floor {
      forall t | fold <= t <= |ops|
        ensures ReplayAt(k, snapshot, s, ops[fold..], folded + t) == ReplayAt(k, baseline, folded, ops, folded + t)
                <==> SameAt(k, base, ops, fold, t)
      {
        ReplayAtCut(k, baseline, folded, ops, fold, snapshot, t);
      }
      CutsAreSame(k, baseline, folded, ops, fold, snapshot);
      if FoldSettles(k, baseline, ops, fold) {
        assert SameAt(k, base, ops, fold, |ops|);
        assert ops[fold..|ops|] == ops[fold..] && ops[..|ops|] == ops;
      }
    }
  }

  lemma ReplayAtCut<M, S>(k: Kernel<M, S>, baseline: Option<S>, folded: nat, ops: seq<Op>, fold: nat,
                          snapshot: Option<S>, t: nat)
    requires fold <= t <= |ops| && Base(k, snapshot) == ReplayOps(k, Base(k, baseline), ops[..fold])
    ensures (ReplayAt(k, snapshot, folded + fold, ops[fold..], folded + t)
             == ReplayAt(k, baseline, folded, ops, folded + t))
            <==> SameAt(k, Base(k, baseline), ops, fold, t)
  {
    hide ReplayOps;
    assert ops[fold..][..t - fold] == ops[fold..t];
  }

  lemma CutsAreSame<M, S>(k: Kernel<M, S>, baseline: Option<S>, folded: nat, ops: seq<Op>, fold: nat,
                          snapshot: Option<S>)
    requires fold <= |ops|
    requires forall t | fold <= t <= |ops| ::
               (ReplayAt(k, snapshot, folded + fold, ops[fold..], folded + t)
                == ReplayAt(k, baseline, folded, ops, folded + t))
               <==> SameAt(k, Base(k, baseline), ops, fold, t)
    ensures SameReplays(k, baseline, folded, ops, snapshot, folded + fold, ops[fold..])
            <==> forall t | fold <= t <= |ops| :: SameAt(k, Base(k, baseline), ops, fold, t)
  {
    hide ReplayAt, SameAt;
    var s := folded + fold;
    assert |ops[fold..]| == |ops| - fold;
    if SameReplays(k, baseline, folded, ops, snapshot, s, ops[fold..]) {
      forall t | fold <= t <= |ops|
        ensures SameAt(k, Base(k, baseline), ops, fold, t)
      {
        assert ReplayAt(k, snapshot, s, ops[fold..], folded + t) == ReplayAt(k, baseline, folded, ops, folded + t);
      }
    }
    if forall t | fold <= t <= |ops| :: SameAt(k, Base(k, baseline), ops, fold, t) {
      forall step | s <= step <= s + |ops[fold..]|
        ensures ReplayAt(k, snapshot, s, ops[fold..], step) == ReplayAt(k, baseline, folded, ops, step)
      {
        assert SameAt(k, Base(k, baseline), ops, fold, step - folded);
        assert folded + (step - folded) == step;
      }
    }
  }

  lemma ReplayAtFold<M, S>(k: Kernel<M, S>, baseline: Option<S>, folded: nat, ops: seq<Op>, fold: nat)
    requires fold <= |ops|
    ensures ReplayAt(k, baseline, folded, ops, folded + fold) == ReplayOps(k, Base(k, baseline), ops[..fold])
  {
  }

  /** The links after a fold continue from the last folded one, which becomes the anchor. */
  lemma CompactedChain(h: Hasher, anchor: string, folded: nat, ops: seq<Op>, fold: nat)
    requires 0 < fold <= |ops|
    ensures var chain := ChainOver(h, anchor, folded, ops);
            && chain[fold..] == ChainOver(h, chain[fold - 1], folded + fold, ops[fold..])
            && Head(chain[fold - 1], chain[fold..]) == Head(anchor, chain)
  {
    hide ChainOver;
    ChainTail(h, anchor, folded, ops, fold);
  }
}
