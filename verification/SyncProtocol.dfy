/** The exchange as a protocol: honest agents record, export and receive, while the network loses,
    duplicates and reorders. A bundle once sent may be delivered to anyone, any number of times. */
module SyncProtocol {
  import opened Options
  import opened Timeline
  import opened Replay
  import opened SyncBundles
  import opened AgentSession

  /** An honest agent that never compacts: its own log from genesis, what it knows of its peers, and
      the key it signs with, if any. */
  datatype Agent = Agent(ops: seq<Op>, peers: Peers, seed: Option<string>)

  datatype System = System(agents: map<string, Agent>, network: set<SyncBundle>)

  datatype Step =
    | Record(id: string, op: Op)
    | Send(id: string, since: nat)
    | Deliver(to: string, bundle: SyncBundle)

  /** A bundle an agent would export now, from a step its log reaches. */
  function Sent(h: Hasher, sigs: Signatures, id: string, a: Agent, since: nat): SyncBundle
    requires since <= |a.ops|
  {
    Signed(sigs, a.seed, Cut(h, id, a.ops, since, None, None))
  }

  /** That is what `Export` produces for an uncompacted log. */
  lemma SentIsExported(h: Hasher, sigs: Signatures, id: string, a: Agent, since: nat)
    requires id != "" && since <= |a.ops|
    ensures Export(sigs, a.seed, id, GENESIS, 0, a.ops, ChainOver(h, GENESIS, 0, a.ops), since)
            == Ok(Sent(h, sigs, id, a, since))
  {
    hide ChainOver;
  }

  ghost predicate Enabled(s: System, step: Step)
  {
    match step
    case Record(id, _) => id in s.agents
    case Send(id, since) => id in s.agents && since <= |s.agents[id].ops|
    case Deliver(to, b) => to in s.agents && b in s.network && LengthsMatch(s.agents[to].peers.foreign)
  }

  ghost function Next(h: Hasher, sigs: Signatures, s: System, step: Step): System
  {
    if !Enabled(s, step) then s
    else
      match step
      case Record(id, op) =>
        s.(agents := s.agents[id := s.agents[id].(ops := s.agents[id].ops + [op])])
      case Send(id, since) =>
        s.(network := s.network + {Sent(h, sigs, id, s.agents[id], since)})
      case Deliver(to, b) =>
        s.(agents := s.agents[to := s.agents[to].(peers := Import(h, sigs, s.agents[to].peers, b).1)])
  }

  ghost function Run(h: Hasher, sigs: Signatures, s: System, steps: seq<Step>): System
  {
    if steps == [] then s else Next(h, sigs, Run(h, sigs, s, steps[..|steps| - 1]), steps[|steps| - 1])
  }

  /** Distinct non-empty ids (the keys of the map), nothing known of anyone, nothing sent. */
  ghost predicate Initial(s: System)
  {
    && s.network == {}
    && forall id | id in s.agents :: id != "" && s.agents[id].peers == Peers(id, map[], map[])
  }

  /** A key's own signatures verify. */
  ghost predicate SoundSignatures(sigs: Signatures)
  {
    forall seed: string, b: SyncBundle | b.pubkey.None? && b.sig.None? ::
      sigs.check(Signed(sigs, Some(seed), b), sigs.pubkeyOf(seed), sigs.sign(seed, b)).None?
  }

  /** The bundle was cut from a prefix of its author's log, and signed by its author. */
  ghost predicate Authentic(h: Hasher, sigs: Signatures, s: System, b: SyncBundle)
  {
    && b.agent in s.agents
    && var a := s.agents[b.agent];
       var end := b.firstSeq + |b.ops|;
       && end <= |a.ops|
       && b == Signed(sigs, a.seed, Cut(h, b.agent, a.ops[..end], b.firstSeq, None, None))
  }

  /** What `id` knows of the others is a prefix of what they recorded. */
  ghost predicate LogsTrue(h: Hasher, s: System, id: string, p: Peers)
  {
    forall x | x in p.foreign ::
      && x != id && x in s.agents
      && p.foreign[x].ops <= s.agents[x].ops
      && Verified(h, p.foreign[x])
  }

  /** A pinned key is its owner's. */
  ghost predicate KeysTrue(sigs: Signatures, s: System, p: Peers)
  {
    forall x | x in p.knownKeys ::
      x in s.agents && s.agents[x].seed.Some? && p.knownKeys[x] == sigs.pubkeyOf(s.agents[x].seed.value)
  }

  ghost predicate Truthful(h: Hasher, sigs: Signatures, s: System, id: string)
    requires id in s.agents
  {
    var p := s.agents[id].peers;
    id != "" && p.agent == id && LogsTrue(h, s, id, p) && KeysTrue(sigs, s, p)
  }

  ghost predicate Inv(h: Hasher, sigs: Signatures, s: System)
  {
    && (forall id | id in s.agents :: Truthful(h, sigs, s, id))
    && (forall b | b in s.network :: Authentic(h, sigs, s, b))
  }

  lemma TruthfulPeers(h: Hasher, sigs: Signatures, s: System, id: string)
    requires id in s.agents && Truthful(h, sigs, s, id)
    ensures LengthsMatch(s.agents[id].peers.foreign) && AllVerified(h, s.agents[id].peers.foreign)
  {
    hide ChainOver;
  }

  /** Logs only grow, so a prefix stays a prefix and a cut stays a cut. */
  lemma GrowthKeeps(h: Hasher, sigs: Signatures, s: System, s': System)
    requires Inv(h, sigs, s)
    requires s'.agents.Keys == s.agents.Keys && s'.network == s.network
    requires forall id | id in s.agents ::
               && s.agents[id].ops <= s'.agents[id].ops
               && s'.agents[id].seed == s.agents[id].seed
               && s'.agents[id].peers == s.agents[id].peers
    ensures Inv(h, sigs, s')
  {
    hide Signed, Cut, Verified;
    forall b | b in s'.network
      ensures Authentic(h, sigs, s', b)
    {
      assert Authentic(h, sigs, s, b);
      var end := b.firstSeq + |b.ops|;
      assert s'.agents[b.agent].ops[..end] == s.agents[b.agent].ops[..end];
    }
    forall id | id in s'.agents
      ensures Truthful(h, sigs, s', id)
    {
      assert Truthful(h, sigs, s, id);
    }
  }

  lemma SentIsAuthentic(h: Hasher, sigs: Signatures, s: System, id: string, since: nat)
    requires id in s.agents && since <= |s.agents[id].ops|
    ensures Authentic(h, sigs, s, Sent(h, sigs, id, s.agents[id], since))
  {
    hide ChainOver;
    var a := s.agents[id];
    assert a.ops[..|a.ops|] == a.ops;
  }

  /** The parts of an authentic bundle. */
  lemma AuthenticParts(h: Hasher, sigs: Signatures, s: System, b: SyncBundle)
    requires Authentic(h, sigs, s, b)
    ensures var a := s.agents[b.agent];
            var end := b.firstSeq + |b.ops|;
            var hist := a.ops[..end];
            var links := ChainOver(h, GENESIS, 0, hist);
            && |hist| == end && |b.ops| == |b.chain|
            && b.anchor == Head(GENESIS, links[..b.firstSeq])
            && b.ops == hist[b.firstSeq..] && b.chain == links[b.firstSeq..]
            && CheckLinks(h, b).None?
            && (a.seed.None? ==> b.pubkey.None? && b.sig.None?)
            && (a.seed.Some? ==> b.pubkey == Some(sigs.pubkeyOf(a.seed.value)) && b.sig.Some?
                                 && b == Signed(sigs, a.seed, b.(pubkey := None, sig := None))
                                 && b.sig.value == sigs.sign(a.seed.value, b.(pubkey := None, sig := None)))
  {
    hide ChainOver, LinkHolds, Link;
    var a := s.agents[b.agent];
    var end := b.firstSeq + |b.ops|;
    var cut := Cut(h, b.agent, a.ops[..end], b.firstSeq, None, None);
    CutChecks(h, b.agent, a.ops[..end], b.firstSeq, None, None);
    CheckedLinks(h, cut);
    CheckedLinks(h, b);
    assert a.seed.Some? ==> b.(pubkey := None, sig := None) == cut;
  }

  /** An authentic bundle passes the key check wherever only owners' keys are pinned. */
  lemma KeyAccepted(h: Hasher, sigs: Signatures, s: System, to: string, b: SyncBundle)
    requires SoundSignatures(sigs) && to in s.agents && Truthful(h, sigs, s, to) && Authentic(h, sigs, s, b)
    ensures var r := CheckKey(sigs, s.agents[to].peers.knownKeys, b);
            && r.Ok?
            && (r.value.Some? ==>
                  s.agents[b.agent].seed.Some? && r.value.value == sigs.pubkeyOf(s.agents[b.agent].seed.value))
  {
    hide ChainOver, CheckLinks, Verified, Cut;
    AuthenticParts(h, sigs, s, b);
  }

  /** What a receiver knows and what a bundle carries are both prefixes of the author's log. */
  lemma DeliveryFacts(h: Hasher, sigs: Signatures, s: System, to: string, b: SyncBundle)
    requires SoundSignatures(sigs) && Inv(h, sigs, s)
    requires to in s.agents && b in s.network && b.agent != to
    ensures b.agent in s.agents && b.agent != "" && s.agents[to].peers.agent == to
    ensures LengthsMatch(s.agents[to].peers.foreign)
    ensures CheckKey(sigs, s.agents[to].peers.knownKeys, b).Ok? && CheckLinks(h, b).None?
    ensures var known := Known(s.agents[to].peers.foreign, b.agent);
            Verified(h, known) && |known.ops| == |known.chain| && known.ops <= s.agents[b.agent].ops
    ensures var ops := s.agents[b.agent].ops;
            var end := b.firstSeq + |b.ops|;
            && end <= |ops| && |b.ops| == |b.chain| && b.ops == ops[..end][b.firstSeq..]
            && var links := ChainOver(h, GENESIS, 0, ops[..end]);
               b.anchor == Head(GENESIS, links[..b.firstSeq]) && b.chain == links[b.firstSeq..]
  {
    hide ChainOver, CheckLinks, Verified, Cut, CheckKey, SoundSignatures, Signed;
    assert Truthful(h, sigs, s, to) && Authentic(h, sigs, s, b) && b.agent in s.agents && Truthful(h, sigs, s, b.agent);
    TruthfulPeers(h, sigs, s, to);
    AuthenticParts(h, sigs, s, b);
    KeyAccepted(h, sigs, s, to, b);
    KnownVerified(h, s.agents[to].peers.foreign, b.agent);
  }

  /** Every delivery to another agent is accepted or reports a gap: never a refusal that accuses the
      author. An accepted one leaves the longer of what was known and what the bundle reaches. */
  lemma HonestDelivery(h: Hasher, sigs: Signatures, s: System, to: string, b: SyncBundle)
    requires SoundSignatures(sigs) && Inv(h, sigs, s)
    requires to in s.agents && b in s.network && b.agent != to
    ensures LengthsMatch(s.agents[to].peers.foreign)
    ensures var (r, p) := Import(h, sigs, s.agents[to].peers, b);
            var known := |Known(s.agents[to].peers.foreign, b.agent).ops|;
            var end := b.firstSeq + |b.ops|;
            && (b.firstSeq > known ==> r == Refused(Gap(known, b.firstSeq)))
            && (b.firstSeq <= known ==>
                  && r == Ok(if end > known then end - known else 0)
                  && b.agent in p.foreign
                  && p.foreign[b.agent].ops == s.agents[b.agent].ops[..if end > known then end else known])
  {
    hide ChainOver, CheckLinks, Verified, CheckKey, CheckContinuity, SoundSignatures, Inv, Known, Extend, LengthsMatch;
    DeliveryFacts(h, sigs, s, to, b);
    var known := Known(s.agents[to].peers.foreign, b.agent);
    PrefixesContinue(h, known, s.agents[b.agent].ops, b, b.firstSeq + |b.ops|);
  }

  lemma PrefixesContinue(h: Hasher, known: ForeignLog, ops: seq<Op>, b: SyncBundle, end: nat)
    requires Verified(h, known) && |known.ops| == |known.chain| && known.ops <= ops
    requires end == b.firstSeq + |b.ops| <= |ops| && |b.ops| == |b.chain|
    requires b.ops == ops[..end][b.firstSeq..]
    requires var links := ChainOver(h, GENESIS, 0, ops[..end]);
             b.anchor == Head(GENESIS, links[..b.firstSeq]) && b.chain == links[b.firstSeq..]
    ensures b.firstSeq > |known.ops| ==> CheckContinuity(known, b) == Some(Gap(|known.ops|, b.firstSeq))
    ensures b.firstSeq <= |known.ops| ==>
              && CheckContinuity(known, b).None?
              && Extend(known, b).ops == ops[..if end > |known.ops| then end else |known.ops|]
              && |Extend(known, b).ops| == if end > |known.ops| then end else |known.ops|
  {
    hide ChainOver, FirstContradicted;
    if b.firstSeq <= |known.ops| {
      var links := ChainOver(h, GENESIS, 0, ops[..end]);
      var verdict := CheckContinuity(known, b);
      ContinuityCompares(known, b, links);
      if verdict.Some? {
        var at := verdict.value.at;
        assert known.ops[..at] == ops[..end][..at];
        SamePrefixSameLinks(h, known.ops, ops[..end], at);
      }
    }
  }

  /** What a delivery to `to` leaves alone: the network and everyone's own logs and keys. */
  lemma DeliverFrame(h: Hasher, sigs: Signatures, s: System, to: string, b: SyncBundle)
    requires Enabled(s, Deliver(to, b))
    ensures var s' := Next(h, sigs, s, Deliver(to, b));
            && s'.agents.Keys == s.agents.Keys && s'.network == s.network
            && (forall x | x in s.agents ::
                s'.agents[x].ops == s.agents[x].ops && s'.agents[x].seed == s.agents[x].seed)
            && (forall x | x in s.agents && x != to :: s'.agents[x].peers == s.agents[x].peers)
            && s'.agents[to].peers == Import(h, sigs, s.agents[to].peers, b).1
  {
    hide Import;
  }

  /** Truth is about the peers' logs and keys and the agent's own view; nothing else matters. */
  lemma TruthfulFrame(h: Hasher, sigs: Signatures, s: System, s': System, id: string)
    requires id in s.agents && Truthful(h, sigs, s, id)
    requires s'.agents.Keys == s.agents.Keys
    requires forall x | x in s.agents :: s'.agents[x].ops == s.agents[x].ops && s'.agents[x].seed == s.agents[x].seed
    requires s'.agents[id].peers == s.agents[id].peers
    ensures Truthful(h, sigs, s', id)
  {
    hide Verified;
  }

  lemma AuthenticFrame(h: Hasher, sigs: Signatures, s: System, s': System, b: SyncBundle)
    requires Authentic(h, sigs, s, b)
    requires s'.agents.Keys == s.agents.Keys
    requires forall x | x in s.agents :: s'.agents[x].ops == s.agents[x].ops && s'.agents[x].seed == s.agents[x].seed
    ensures Authentic(h, sigs, s', b)
  {
    hide Cut, Signed;
  }

  lemma ReceiverLogs(h: Hasher, sigs: Signatures, s: System, to: string, b: SyncBundle)
    requires SoundSignatures(sigs) && Inv(h, sigs, s) && Enabled(s, Deliver(to, b))
    ensures LogsTrue(h, s, to, Import(h, sigs, s.agents[to].peers, b).1)
  {
    hide ChainOver, Verified, Authentic, SoundSignatures, Import, KeysTrue;
    assert Truthful(h, sigs, s, to) && Authentic(h, sigs, s, b);
    var p := s.agents[to].peers;
    TruthfulPeers(h, sigs, s, to);
    ImportKeeps(h, sigs, p, b);
    AuthorHere(h, sigs, s, b);
    if b.agent != to {
      DeliveredIsPrefix(h, sigs, s, to, b);
    }
  }

  lemma ReceiverKeys(h: Hasher, sigs: Signatures, s: System, to: string, b: SyncBundle)
    requires SoundSignatures(sigs) && Inv(h, sigs, s) && Enabled(s, Deliver(to, b))
    ensures KeysTrue(sigs, s, Import(h, sigs, s.agents[to].peers, b).1)
  {
    hide ChainOver, Verified, Authentic, SoundSignatures, Import, LogsTrue;
    assert Truthful(h, sigs, s, to) && Authentic(h, sigs, s, b);
    TruthfulPeers(h, sigs, s, to);
    ImportKeeps(h, sigs, s.agents[to].peers, b);
    AuthorHere(h, sigs, s, b);
    AuthorKey(h, sigs, s, b);
  }

  lemma AuthorKey(h: Hasher, sigs: Signatures, s: System, b: SyncBundle)
    requires Authentic(h, sigs, s, b)
    ensures b.agent in s.agents
    ensures b.pubkey.Some? ==>
              s.agents[b.agent].seed.Some? && b.pubkey.value == sigs.pubkeyOf(s.agents[b.agent].seed.value)
  {
    hide ChainOver;
  }

  /** After a delivery the receiver's view is still the truth. */
  lemma ReceiverTruthful(h: Hasher, sigs: Signatures, s: System, s': System, to: string, b: SyncBundle)
    requires SoundSignatures(sigs) && Inv(h, sigs, s) && Enabled(s, Deliver(to, b))
    requires s'.agents.Keys == s.agents.Keys
    requires forall x | x in s.agents :: s'.agents[x].ops == s.agents[x].ops && s'.agents[x].seed == s.agents[x].seed
    requires s'.agents[to].peers == Import(h, sigs, s.agents[to].peers, b).1
    ensures Truthful(h, sigs, s', to)
  {
    hide Verified, Authentic, SoundSignatures, Import, Inv;
    ReceiverLogs(h, sigs, s, to, b);
    ReceiverKeys(h, sigs, s, to, b);
    ReceiverNamed(h, sigs, s, to, b);
  }

  lemma ReceiverNamed(h: Hasher, sigs: Signatures, s: System, to: string, b: SyncBundle)
    requires Inv(h, sigs, s) && Enabled(s, Deliver(to, b))
    ensures to != "" && Import(h, sigs, s.agents[to].peers, b).1.agent == to
  {
    hide LogsTrue, KeysTrue, Authentic, CheckKey, CheckLinks, CheckContinuity, Extend;
    assert Truthful(h, sigs, s, to);
  }

  lemma AuthorHere(h: Hasher, sigs: Signatures, s: System, b: SyncBundle)
    requires Authentic(h, sigs, s, b)
    ensures b.agent in s.agents && b.firstSeq + |b.ops| <= |s.agents[b.agent].ops|
  {
  }

  lemma DeliveredIsPrefix(h: Hasher, sigs: Signatures, s: System, to: string, b: SyncBundle)
    requires SoundSignatures(sigs) && Inv(h, sigs, s)
    requires to in s.agents && b in s.network && b.agent != to
    ensures LengthsMatch(s.agents[to].peers.foreign) && b.agent in s.agents
    ensures var p := Import(h, sigs, s.agents[to].peers, b).1;
            b.agent in p.foreign ==> p.foreign[b.agent].ops <= s.agents[b.agent].ops
  {
    hide ChainOver, Verified, Authentic, CheckKey, SoundSignatures, Import;
    assert Truthful(h, sigs, s, to) && Authentic(h, sigs, s, b);
    TruthfulPeers(h, sigs, s, to);
    ImportKeeps(h, sigs, s.agents[to].peers, b);
    AuthorHere(h, sigs, s, b);
    HonestDelivery(h, sigs, s, to, b);
  }

  lemma DeliverKeeps(h: Hasher, sigs: Signatures, s: System, to: string, b: SyncBundle)
    requires SoundSignatures(sigs) && Inv(h, sigs, s)
    requires Enabled(s, Deliver(to, b))
    ensures Inv(h, sigs, Next(h, sigs, s, Deliver(to, b)))
  {
    hide Truthful, Authentic, SoundSignatures, Import, Next;
    var s' := Next(h, sigs, s, Deliver(to, b));
    DeliverFrame(h, sigs, s, to, b);
    ReceiverTruthful(h, sigs, s, s', to, b);
    forall id | id in s'.agents
      ensures Truthful(h, sigs, s', id)
    {
      if id != to {
        TruthfulFrame(h, sigs, s, s', id);
      }
    }
    forall c | c in s'.network
      ensures Authentic(h, sigs, s', c)
    {
      AuthenticFrame(h, sigs, s, s', c);
    }
  }

  lemma NextKeeps(h: Hasher, sigs: Signatures, s: System, step: Step)
    requires SoundSignatures(sigs) && Inv(h, sigs, s)
    ensures Inv(h, sigs, Next(h, sigs, s, step))
  {
    hide SoundSignatures, Import, Authentic, Truthful, Sent;
    if Enabled(s, step) {
      match step {
        case Record(id, op) =>
          GrowthKeeps(h, sigs, s, Next(h, sigs, s, step));
        case Send(id, since) =>
          SentIsAuthentic(h, sigs, s, id, since);
          SendKeeps(h, sigs, s, Sent(h, sigs, id, s.agents[id], since));
        case Deliver(to, b) =>
          DeliverKeeps(h, sigs, s, to, b);
      }
    }
  }

  lemma SendKeeps(h: Hasher, sigs: Signatures, s: System, b: SyncBundle)
    requires Inv(h, sigs, s) && Authentic(h, sigs, s, b)
    ensures Inv(h, sigs, s.(network := s.network + {b}))
  {
    hide ChainOver, Verified, Cut, Signed;
    var s' := s.(network := s.network + {b});
    forall c | c in s'.network
      ensures Authentic(h, sigs, s', c)
    {
      assert Authentic(h, sigs, s, c);
    }
    forall id | id in s'.agents
      ensures Truthful(h, sigs, s', id)
    {
      assert Truthful(h, sigs, s, id);
    }
  }

  /** Over every run, from any start, whatever the network does: each known log is a verified prefix
      of its author's log and everything in flight is authentic. */
  lemma {:induction false} RunKeeps(h: Hasher, sigs: Signatures, s: System, steps: seq<Step>)
    requires SoundSignatures(sigs) && Initial(s)
    ensures Inv(h, sigs, Run(h, sigs, s, steps))
    decreases |steps|
  {
    hide SoundSignatures, Next;
    if steps == [] {
    } else {
      RunKeeps(h, sigs, s, steps[..|steps| - 1]);
      NextKeeps(h, sigs, Run(h, sigs, s, steps[..|steps| - 1]), steps[|steps| - 1]);
    }
  }

  /** The ops an agent records in a run, in order. */
  function RecordedBy(steps: seq<Step>, id: string): seq<Op>
  {
    if steps == [] then []
    else
      var before := RecordedBy(steps[..|steps| - 1], id);
      match steps[|steps| - 1]
      case Record(who, op) => if who == id then before + [op] else before
      case Send(_, _) => before
      case Deliver(_, _) => before
  }

  /** Nothing recorded is lost and nothing else gets into an own log: after a run it is what it was, and
      then what the agent recorded, in order. */
  lemma {:induction false} RunRecords(h: Hasher, sigs: Signatures, s: System, steps: seq<Step>, id: string)
    requires id in s.agents
    ensures var t := Run(h, sigs, s, steps);
            && t.agents.Keys == s.agents.Keys && s.network <= t.network
            && t.agents[id].ops == s.agents[id].ops + RecordedBy(steps, id)
            && t.agents[id].seed == s.agents[id].seed
    decreases |steps|
  {
    hide Import, Sent;
    if steps == [] {
    } else {
      RunRecords(h, sigs, s, steps[..|steps| - 1], id);
    }
  }

  /** So over every run, every delivery to another agent is accepted or reports a gap. */
  lemma NoFalseAccusation(h: Hasher, sigs: Signatures, s: System, steps: seq<Step>, to: string, b: SyncBundle)
    requires SoundSignatures(sigs) && Initial(s)
    requires var t := Run(h, sigs, s, steps); to in t.agents && b in t.network && b.agent != to
    ensures var t := Run(h, sigs, s, steps);
            LengthsMatch(t.agents[to].peers.foreign)
            && var r := Import(h, sigs, t.agents[to].peers, b).0;
               r.Ok? || r.error.Gap?
  {
    hide SoundSignatures, Inv, Import, Initial;
    RunKeeps(h, sigs, s, steps);
    HonestDelivery(h, sigs, Run(h, sigs, s, steps), to, b);
  }

  // ----- convergence -----

  /** The timelines an agent can merge. */
  function StreamsOf(a: Agent): map<string, seq<Op>>
  {
    Streams(a.peers.agent, a.ops, a.peers.foreign)
  }

  lemma StreamsArePrefixes(h: Hasher, sigs: Signatures, s: System, id: string)
    requires Inv(h, sigs, s) && id in s.agents
    ensures forall x | x in StreamsOf(s.agents[id]) :: x in s.agents && StreamsOf(s.agents[id])[x] <= s.agents[x].ops
  {
    hide Verified, Authentic;
    assert Truthful(h, sigs, s, id);
  }

  /** Convergence without consensus: in any reachable state, two agents that know the same agents to
      the same lengths materialise the same shared memory, whatever route the bundles took. */
  lemma Converges<M, S>(k: Kernel<M, S>, h: Hasher, sigs: Signatures, s: System, steps: seq<Step>, a: string,
                        b: string)
    requires SoundSignatures(sigs) && Initial(s)
    requires var t := Run(h, sigs, s, steps);
             && a in t.agents && b in t.agents
             && StreamsOf(t.agents[a]).Keys == StreamsOf(t.agents[b]).Keys
             && forall x | x in StreamsOf(t.agents[a]) :: |StreamsOf(t.agents[a])[x]| == |StreamsOf(t.agents[b])[x]|
    ensures var t := Run(h, sigs, s, steps);
            MergedView(k, StreamsOf(t.agents[a])) == MergedView(k, StreamsOf(t.agents[b]))
  {
    hide SoundSignatures, Inv, MergedView, StreamsOf, Initial;
    var t := Run(h, sigs, s, steps);
    RunKeeps(h, sigs, s, steps);
    StreamsArePrefixes(h, sigs, t, a);
    StreamsArePrefixes(h, sigs, t, b);
    var sa, sb := StreamsOf(t.agents[a]), StreamsOf(t.agents[b]);
    forall x | x in sa
      ensures sa[x] == sb[x]
    {
      assert sa[x] <= t.agents[x].ops && sb[x] <= t.agents[x].ops;
      assert sa[x] == t.agents[x].ops[..|sa[x]|] && sb[x] == t.agents[x].ops[..|sb[x]|];
    }
    assert sa == sb;
  }

  /** What is merged: the own log in full, and of every known agent a prefix of what it recorded. */
  lemma MergesHistories(h: Hasher, sigs: Signatures, s: System, id: string)
    requires Inv(h, sigs, s) && id in s.agents
    ensures var streams := StreamsOf(s.agents[id]);
            && streams.Keys == s.agents[id].peers.foreign.Keys + {id} && streams[id] == s.agents[id].ops
            && forall x | x in streams :: x in s.agents && streams[x] <= s.agents[x].ops
  {
    hide Inv, Streams;
    StreamsArePrefixes(h, sigs, s, id);
    InvParts(h, sigs, s, id, id);
    NotOwn(h, sigs, s, id);
    StreamsHold(s.agents[id].peers.agent, s.agents[id].ops, s.agents[id].peers.foreign);
  }

  lemma NotOwn(h: Hasher, sigs: Signatures, s: System, id: string)
    requires Inv(h, sigs, s) && id in s.agents
    ensures id !in s.agents[id].peers.foreign
  {
    hide Verified, Authentic;
    assert Truthful(h, sigs, s, id);
  }

  /** Catching up takes one exchange: exporting from a step the receiver reaches, then delivering,
      leaves the receiver with the author's whole log. */
  lemma CatchUp(h: Hasher, sigs: Signatures, s: System, from: string, to: string, since: nat)
    requires SoundSignatures(sigs) && Inv(h, sigs, s)
    requires from in s.agents && to in s.agents && from != to
    requires since <= |Known(s.agents[to].peers.foreign, from).ops|
    ensures since <= |s.agents[from].ops|
    ensures var b := Sent(h, sigs, from, s.agents[from], since);
            var t := Next(h, sigs, Next(h, sigs, s, Send(from, since)), Deliver(to, b));
            && from in t.agents && to in t.agents && from in t.agents[to].peers.foreign
            && t.agents[from].ops == s.agents[from].ops == t.agents[to].peers.foreign[from].ops
  {
    hide SoundSignatures, Import, Inv, Sent, Next, Truthful;
    KnownIsShorter(h, sigs, s, from, to);
    var a := s.agents[from];
    var b := Sent(h, sigs, from, a, since);
    var s1 := Next(h, sigs, s, Send(from, since));
    NextKeeps(h, sigs, s, Send(from, since));
    SendFrame(h, sigs, s, from, since);
    SentSpan(h, sigs, from, a, since);
    HonestDelivery(h, sigs, s1, to, b);
    DeliverFrame(h, sigs, s1, to, b);
    assert a.ops[..|a.ops|] == a.ops;
  }

  lemma KnownIsShorter(h: Hasher, sigs: Signatures, s: System, from: string, to: string)
    requires Inv(h, sigs, s) && from in s.agents && to in s.agents
    ensures |Known(s.agents[to].peers.foreign, from).ops| <= |s.agents[from].ops|
  {
    hide Verified, Authentic;
    assert Truthful(h, sigs, s, to);
  }

  lemma SendFrame(h: Hasher, sigs: Signatures, s: System, id: string, since: nat)
    requires Enabled(s, Send(id, since))
    ensures var s' := Next(h, sigs, s, Send(id, since));
            s'.agents == s.agents && Sent(h, sigs, id, s.agents[id], since) in s'.network
  {
    hide Sent;
  }

  lemma SentSpan(h: Hasher, sigs: Signatures, id: string, a: Agent, since: nat)
    requires since <= |a.ops|
    ensures var b := Sent(h, sigs, id, a, since);
            b.agent == id && b.firstSeq == since && b.firstSeq + |b.ops| == |a.ops|
  {
  }

  // ----- exporting past the end -----

  /** The bundle `id` exports from `since` when its log has its first `n` ops. */
  function ExportedAt(h: Hasher, sigs: Signatures, id: string, a: Agent, n: nat, since: nat): SyncResult<SyncBundle>
    requires n <= |a.ops|
  {
    Export(sigs, a.seed, id, GENESIS, 0, a.ops[..n], ChainOver(h, GENESIS, 0, a.ops[..n]), since)
  }

  /** `export_bundle` accepts a `since` beyond the end of the log: it anchors an empty bundle at the last
      link but labels it with `since`. In any reachable state, whenever the bundle arrives: the receiver
      reports a gap if it does not know that far; otherwise it takes the bundle if `since` was within the
      author's log at export, and reports the honest author as divergent if it was not, unless two of the
      author's own texts collide. So an author is accused exactly if it exported past its end. */
  lemma PastEndAccuses(h: Hasher, sigs: Signatures, s: System, to: string, id: string, n: nat, since: nat)
    requires Lawful(h) && SoundSignatures(sigs) && Inv(h, sigs, s)
    requires to in s.agents && id in s.agents && to != id && n <= |s.agents[id].ops|
    ensures LengthsMatch(s.agents[to].peers.foreign) && ExportedAt(h, sigs, id, s.agents[id], n, since).Ok?
    ensures var ops := s.agents[id].ops;
            var known := |Known(s.agents[to].peers.foreign, id).ops|;
            var r := Import(h, sigs, s.agents[to].peers, ExportedAt(h, sigs, id, s.agents[id], n, since).value).0;
            && known <= |ops|
            && (since > known ==> r == Refused(Gap(known, since)))
            && (since <= known && since <= n ==> r == Ok(if n > known then n - known else 0))
            && (since <= known && since > n ==> r == Refused(Diverged(since)) || CollideFor(h, ops, n, since))
  {
    hide SoundSignatures, Inv, Import, Cut, Known, LengthsMatch, Signed, CollideFor;
    InvParts(h, sigs, s, to, id);
    if since <= n {
      WithinEnd(h, sigs, s, to, id, n, since);
    } else {
      PastEnd(h, sigs, s, to, id, n, since);
    }
  }

  /** The links after `n` and after `since` ops hash different texts to one digest. */
  ghost predicate CollideFor(h: Hasher, ops: seq<Op>, n: nat, since: nat)
    requires n < since <= |ops|
  {
    n > 0 && Collide(h, LinkInput(h, GENESIS, 0, ops, n - 1), LinkInput(h, GENESIS, 0, ops, since - 1))
  }

  lemma InvParts(h: Hasher, sigs: Signatures, s: System, to: string, id: string)
    requires Inv(h, sigs, s) && to in s.agents && id in s.agents
    ensures id != "" && s.agents[to].peers.agent == to && KeysTrue(sigs, s, s.agents[to].peers)
    ensures LengthsMatch(s.agents[to].peers.foreign)
    ensures var known := Known(s.agents[to].peers.foreign, id);
            Verified(h, known) && |known.ops| == |known.chain| && known.ops <= s.agents[id].ops
  {
    hide ChainOver, Authentic;
    assert Truthful(h, sigs, s, to) && Truthful(h, sigs, s, id);
    TruthfulPeers(h, sigs, s, to);
    KnownVerified(h, s.agents[to].peers.foreign, id);
  }

  /** A bundle from within the log is one the author may have sent. */
  lemma WithinEnd(h: Hasher, sigs: Signatures, s: System, to: string, id: string, n: nat, since: nat)
    requires SoundSignatures(sigs) && Inv(h, sigs, s)
    requires to in s.agents && id in s.agents && to != id && since <= n <= |s.agents[id].ops|
    ensures LengthsMatch(s.agents[to].peers.foreign) && ExportedAt(h, sigs, id, s.agents[id], n, since).Ok?
    ensures var known := |Known(s.agents[to].peers.foreign, id).ops|;
            var r := Import(h, sigs, s.agents[to].peers, ExportedAt(h, sigs, id, s.agents[id], n, since).value).0;
            && (since > known ==> r == Refused(Gap(known, since)))
            && (since <= known ==> r == Ok(if n > known then n - known else 0))
  {
    hide SoundSignatures, Import, Known, LengthsMatch, Inv, ChainOver;
    InvParts(h, sigs, s, to, id);
    var b := ExportedAt(h, sigs, id, s.agents[id], n, since).value;
    assert b.agent == id && b.firstSeq == since && b.firstSeq + |b.ops| == n;
    assert b == Signed(sigs, s.agents[id].seed, Cut(h, id, s.agents[id].ops[..n], since, None, None));
    SendKeeps(h, sigs, s, b);
    HonestDelivery(h, sigs, s.(network := s.network + {b}), to, b);
  }

  lemma PastEnd(h: Hasher, sigs: Signatures, s: System, to: string, id: string, n: nat, since: nat)
    requires Lawful(h) && SoundSignatures(sigs) && Inv(h, sigs, s)
    requires to in s.agents && id in s.agents && to != id && n <= |s.agents[id].ops| && since > n
    ensures LengthsMatch(s.agents[to].peers.foreign) && ExportedAt(h, sigs, id, s.agents[id], n, since).Ok?
    ensures var ops := s.agents[id].ops;
            var known := |Known(s.agents[to].peers.foreign, id).ops|;
            var r := Import(h, sigs, s.agents[to].peers, ExportedAt(h, sigs, id, s.agents[id], n, since).value).0;
            && known <= |ops|
            && (since > known ==> r == Refused(Gap(known, since)))
            && (since <= known ==> r == Refused(Diverged(since)) || CollideFor(h, ops, n, since))
  {
    hide SoundSignatures, Inv, ChainOver, CheckKey, CheckLinks, CheckContinuity, Known, LengthsMatch, Verified,
        CollideFor,
         KeysTrue, Lawful;
    InvParts(h, sigs, s, to, id);
    EmptyBundle(h, sigs, s, to, id, n, since);
    var known := Known(s.agents[to].peers.foreign, id);
    LabelledPastEnd(h, known, s.agents[id].ops, n, ExportedAt(h, sigs, id, s.agents[id], n, since).value);
  }

  /** Such a bundle is empty, sits on the author's last link, and passes the checks of key and links. */
  lemma EmptyBundle(h: Hasher, sigs: Signatures, s: System, to: string, id: string, n: nat, since: nat)
    requires SoundSignatures(sigs) && to in s.agents && id in s.agents && id != ""
    requires KeysTrue(sigs, s, s.agents[to].peers) && n <= |s.agents[id].ops| && since > n
    ensures var exported := ExportedAt(h, sigs, id, s.agents[id], n, since);
            && exported.Ok?
            && var b := exported.value;
               && b.agent == id && b.firstSeq == since && b.ops == [] && b.chain == []
               && b.anchor == Head(GENESIS, ChainOver(h, GENESIS, 0, s.agents[id].ops[..n]))
               && CheckLinks(h, b).None? && CheckKey(sigs, s.agents[to].peers.knownKeys, b).Ok?
  {
    hide ChainOver;
    var a := s.agents[id];
    var chain := ChainOver(h, GENESIS, 0, a.ops[..n]);
    assert a.ops[..n][n..] == [] && chain[n..] == [] && chain[..n] == chain;
    var plain := SyncBundle(1, id, since, Head(GENESIS, chain), [], [], None, None);
    assert ExportedAt(h, sigs, id, a, n, since) == Ok(Signed(sigs, a.seed, plain));
    if a.seed.Some? {
      assert sigs.check(Signed(sigs, a.seed, plain), sigs.pubkeyOf(a.seed.value), sigs.sign(a.seed.value, plain)).None?;
    }
  }

  /** A label past the end meets a later link of the author's own. */
  lemma LabelledPastEnd(h: Hasher, known: ForeignLog, ops: seq<Op>, n: nat, b: SyncBundle)
    requires Lawful(h) && Verified(h, known) && |known.ops| == |known.chain| && known.ops <= ops && n <= |ops|
    requires b.firstSeq > n && b.ops == [] && b.chain == []
    requires b.anchor == Head(GENESIS, ChainOver(h, GENESIS, 0, ops[..n]))
    ensures b.firstSeq > |known.ops| ==> CheckContinuity(known, b) == Some(Gap(|known.ops|, b.firstSeq))
    ensures b.firstSeq <= |known.ops| ==>
              CheckContinuity(known, b) == Some(Diverged(b.firstSeq)) || CollideFor(h, ops, n, b.firstSeq)
  {
    hide ChainOver, LinkInput, Lawful;
    var since := b.firstSeq;
    if since <= |known.ops| {
      assert known.ops == ops[..|known.ops|];
      ChainPrefix(h, GENESIS, 0, ops, |known.ops|);
      ChainPrefix(h, GENESIS, 0, ops, n);
      LinkAt(h, GENESIS, 0, ops, since - 1);
      assert known.chain[since - 1] == ChainOver(h, GENESIS, 0, ops)[since - 1];
      GenesisHasNoBar();
      if n > 0 {
        LinkAt(h, GENESIS, 0, ops, n - 1);
        assert b.anchor == ChainOver(h, GENESIS, 0, ops)[n - 1];
        StepTells(h, GENESIS, 0, ops, n - 1, ops, since - 1);
      } else {
        DigestIsNotGenesis(h, LinkInput(h, GENESIS, 0, ops, since - 1));
      }
    }
  }

  lemma DigestIsNotGenesis(h: Hasher, t: string)
    requires Lawful(h)
    ensures h.sha(t) != GENESIS
  {
    assert |h.sha(t)| == 64 && |GENESIS| == 7;
  }
}
