/** Exchanging timeline segments between agents: what an import accepts, refuses and changes. */
module SyncBundles {
  import opened Options
  import opened Timeline

  datatype SyncBundle = SyncBundle(
    version: nat,
    agent: string,
    firstSeq: nat,
    anchor: string,
    ops: seq<Op>,
    chain: seq<string>,
    pubkey: Option<string>,
    sig: Option<string>
  )

  /** Another agent's log, from genesis. */
  datatype ForeignLog = ForeignLog(ops: seq<Op>, chain: seq<string>)

  datatype Reason = NoBundleAgent | LengthsDiffer | GenesisAnchor | BadLink(step: nat)

  datatype SyncError =
    | NoAgentId
    | SelfImport
    | CompactedHistory
    | Gap(known: nat, bundleStart: nat)
    | Tampered(reason: Reason)
    | Diverged(at: nat)
    | BadSignature
    | KeyMismatch(claimed: string)
    | UnsignedFromPinned(claimed: string)
    | SignedUnsupported

  datatype SyncResult<+T> = Ok(value: T) | Refused(error: SyncError)

  /** The signature scheme: how a key signs a bundle, and what checking a signature reports. */
  datatype Signatures = Signatures(
    pubkeyOf: string -> string,
    sign: (string, SyncBundle) -> string,
    check: (SyncBundle, string, string) -> Option<SyncError>
  )

  /** What a session knows of its peers. */
  datatype Peers = Peers(agent: string, foreign: map<string, ForeignLog>, knownKeys: map<string, string>)

  const NO_LOG := ForeignLog([], [])

  function Known(foreign: map<string, ForeignLog>, id: string): ForeignLog
  {
    if id in foreign then foreign[id] else NO_LOG
  }

  // ----- export -----

  function Signed(sigs: Signatures, seed: Option<string>, b: SyncBundle): SyncBundle
  {
    match seed
    case None => b
    case Some(s) => b.(pubkey := Some(sigs.pubkeyOf(s)), sig := Some(sigs.sign(s, b)))
  }

  /** The ops from absolute step `since` on, with the links that chain them. */
  function Export(sigs: Signatures, seed: Option<string>, agent: string, anchor: string, folded: nat,
                  ops: seq<Op>, chain: seq<string>, since: nat): SyncResult<SyncBundle>
    requires |ops| == |chain|
  {
    if agent == "" then Refused(NoAgentId)
    else if since < folded then Refused(CompactedHistory)
    else
      var start := if since - folded <= |ops| then since - folded else |ops|;
      Ok(Signed(sigs, seed,
                SyncBundle(1, agent, since, Head(anchor, chain[..start]), ops[start..], chain[start..], None, None)))
  }

  // ----- import -----

  /** The index of the first link that does not recompute; the length if all do. */
  function FirstBroken(h: Hasher, b: SyncBundle, i: nat): (n: nat)
    requires |b.ops| == |b.chain| && i <= |b.ops|
    ensures i <= n <= |b.ops|
    ensures forall j | i <= j < n :: LinkHolds(h, b.anchor, b.firstSeq, b.ops, b.chain, j)
    ensures n < |b.ops| ==> !LinkHolds(h, b.anchor, b.firstSeq, b.ops, b.chain, n)
    decreases |b.ops| - i
  {
    if i == |b.ops| || !LinkHolds(h, b.anchor, b.firstSeq, b.ops, b.chain, i) then i
    else FirstBroken(h, b, i + 1)
  }

  /** The index of the first bundle link that a known link contradicts; the overlap's end if none. */
  function FirstContradicted(known: seq<string>, b: SyncBundle, i: nat): (n: nat)
    requires i <= |b.chain|
    ensures i <= n <= |b.chain| && (n == i || b.firstSeq + n <= |known|)
    ensures forall j | i <= j < n :: b.firstSeq + j < |known| && known[b.firstSeq + j] == b.chain[j]
    ensures n < |b.chain| && b.firstSeq + n < |known| ==> known[b.firstSeq + n] != b.chain[n]
    decreases |b.chain| - i
  {
    if i == |b.chain| || b.firstSeq + i >= |known| || known[b.firstSeq + i] != b.chain[i] then i
    else FirstContradicted(known, b, i + 1)
  }

  /** Authenticity: the key to pin on success, if this is the agent's first signed bundle. */
  function CheckKey(sigs: Signatures, knownKeys: map<string, string>, b: SyncBundle): SyncResult<Option<string>>
  {
    match (b.pubkey, b.sig)
    case (Some(pubkey), Some(sig)) =>
      var bad := sigs.check(b, pubkey, sig);
      if bad.Some? then Refused(bad.value)
      else if b.agent !in knownKeys then Ok(Some(pubkey))
      else if knownKeys[b.agent] != pubkey then Refused(KeyMismatch(b.agent))
      else Ok(None)
    case (None, None) =>
      if b.agent in knownKeys then Refused(UnsignedFromPinned(b.agent)) else Ok(None)
    case _ => Refused(BadSignature)
  }

  /** Integrity: the bundle's links recompute from its own anchor. */
  function CheckLinks(h: Hasher, b: SyncBundle): Option<SyncError>
  {
    if |b.ops| != |b.chain| then Some(Tampered(LengthsDiffer))
    else if b.firstSeq == 0 && b.anchor != GENESIS then Some(Tampered(GenesisAnchor))
    else
      var i := FirstBroken(h, b, 0);
      if i < |b.ops| then Some(Tampered(BadLink(b.firstSeq + i + 1))) else None
  }

  /** Continuity: the bundle extends what is known of its agent. */
  function CheckContinuity(known: ForeignLog, b: SyncBundle): Option<SyncError>
    requires |known.ops| == |known.chain| && |b.ops| == |b.chain|
  {
    if b.firstSeq > |known.ops| then Some(Gap(|known.ops|, b.firstSeq))
    else if b.firstSeq > 0 && b.anchor != known.chain[b.firstSeq - 1] then Some(Diverged(b.firstSeq))
    else
      var i := FirstContradicted(known.chain, b, 0);
      if i < |b.chain| && b.firstSeq + i < |known.chain| then Some(Diverged(b.firstSeq + i + 1)) else None
  }

  /** The known log with the genuinely new suffix appended. */
  function Extend(known: ForeignLog, b: SyncBundle): ForeignLog
    requires |known.ops| == |known.chain| && |b.ops| == |b.chain| && b.firstSeq <= |known.ops|
  {
    var rest := |known.ops| - b.firstSeq;
    var overlap := if rest < |b.ops| then rest else |b.ops|;
    ForeignLog(known.ops + b.ops[overlap..], known.chain + b.chain[overlap..])
  }

  predicate LengthsMatch(foreign: map<string, ForeignLog>)
  {
    forall id | id in foreign :: |foreign[id].ops| == |foreign[id].chain|
  }

  /** An import: the number of ops appended or the refusal, and the peers after it. */
  function Import(h: Hasher, sigs: Signatures, p: Peers, b: SyncBundle): (SyncResult<nat>, Peers)
    requires LengthsMatch(p.foreign)
  {
    if b.agent == "" then (Refused(Tampered(NoBundleAgent)), p)
    else if b.agent == p.agent then (Refused(SelfImport), p)
    else
      match CheckKey(sigs, p.knownKeys, b)
      case Refused(e) => (Refused(e), p)
      case Ok(pin) =>
        match CheckLinks(h, b)
        case Some(e) => (Refused(e), p)
        case None =>
          var known := Known(p.foreign, b.agent);
          match CheckContinuity(known, b)
          case Some(e) => (Refused(e), p)
          case None =>
            var log := Extend(known, b);
            var keys := if pin.Some? then p.knownKeys[b.agent := pin.value] else p.knownKeys;
            (Ok(|log.ops| - |known.ops|), p.(foreign := p.foreign[b.agent := log], knownKeys := keys))
  }

  /** The first check that fails decides, and nothing changes. */
  lemma ImportRefuses(h: Hasher, sigs: Signatures, p: Peers, b: SyncBundle)
    requires LengthsMatch(p.foreign)
    ensures b.agent == "" ==> Import(h, sigs, p, b) == (Refused(Tampered(NoBundleAgent)), p)
    ensures b.agent != "" && b.agent == p.agent ==> Import(h, sigs, p, b) == (Refused(SelfImport), p)
    ensures b.agent != "" && b.agent != p.agent ==>
              var key := CheckKey(sigs, p.knownKeys, b);
              && (key.Refused? ==> Import(h, sigs, p, b) == (Refused(key.error), p))
              && (key.Ok? && CheckLinks(h, b).Some? ==> Import(h, sigs, p, b) == (Refused(CheckLinks(h, b).value), p))
              && (key.Ok? && CheckLinks(h, b).None? ==>
                    && |b.ops| == |b.chain|
                    && var bad := CheckContinuity(Known(p.foreign, b.agent), b);
                       bad.Some? ==> Import(h, sigs, p, b) == (Refused(bad.value), p))
  {
    hide CheckKey, CheckContinuity, FirstBroken;
  }

  /** A bundle that passes every check: what is new in it is appended, and its first key pinned. */
  lemma ImportAccepts(h: Hasher, sigs: Signatures, p: Peers, b: SyncBundle)
    requires LengthsMatch(p.foreign) && |b.ops| == |b.chain|
    requires b.agent != "" && b.agent != p.agent
    requires CheckKey(sigs, p.knownKeys, b).Ok? && CheckLinks(h, b).None?
    requires var known := Known(p.foreign, b.agent);
             |known.ops| == |known.chain| && CheckContinuity(known, b).None? && b.firstSeq <= |known.ops|
    ensures var known, pin := Known(p.foreign, b.agent), CheckKey(sigs, p.knownKeys, b).value;
            var rest := |known.ops| - b.firstSeq;
            var overlap := if rest < |b.ops| then rest else |b.ops|;
            var log := ForeignLog(known.ops + b.ops[overlap..], known.chain + b.chain[overlap..]);
            Import(h, sigs, p, b)
            == (Ok(|b.ops| - overlap),
                Peers(p.agent, p.foreign[b.agent := log],
                      if pin.Some? then p.knownKeys[b.agent := pin.value] else p.knownKeys))
  {
    hide CheckKey, CheckContinuity, CheckLinks, Known;
  }

  // ----- what an import accepts -----

  /** Key and signature come together, and the signature checks; an agent whose key is pinned has signed
      with that key. */
  ghost predicate Genuine(sigs: Signatures, knownKeys: map<string, string>, b: SyncBundle)
  {
    && (b.pubkey.Some? <==> b.sig.Some?)
    && (b.pubkey.Some? && b.sig.Some? ==> sigs.check(b, b.pubkey.value, b.sig.value).None?)
    && (b.agent in knownKeys ==> b.pubkey == Some(knownKeys[b.agent]))
  }

  /** The links are the ones the ops have after the anchor. */
  ghost predicate Intact(h: Hasher, b: SyncBundle)
  {
    && |b.ops| == |b.chain| && (b.firstSeq == 0 ==> b.anchor == GENESIS)
    && b.chain == ChainOver(h, b.anchor, b.firstSeq, b.ops)
  }

  /** The bundle starts within what is known, on the link known there, and no link known contradicts it. */
  ghost predicate Continues(known: ForeignLog, b: SyncBundle)
  {
    && b.firstSeq <= |known.chain|
    && (b.firstSeq > 0 ==> b.anchor == known.chain[b.firstSeq - 1])
    && forall i | 0 <= i < |b.chain| && b.firstSeq + i < |known.chain| :: known.chain[b.firstSeq + i] == b.chain[i]
  }

  lemma GenuineExactly(sigs: Signatures, knownKeys: map<string, string>, b: SyncBundle)
    ensures CheckKey(sigs, knownKeys, b).Ok? <==> Genuine(sigs, knownKeys, b)
    ensures CheckKey(sigs, knownKeys, b).Ok? ==>
              CheckKey(sigs, knownKeys, b).value == if b.agent in knownKeys then None else b.pubkey
  {
  }

  lemma ContinuesExactly(known: ForeignLog, b: SyncBundle)
    requires |known.ops| == |known.chain| && |b.ops| == |b.chain|
    ensures CheckContinuity(known, b).None? <==> Continues(known, b)
  {
    if b.firstSeq <= |known.ops| {
      var i := FirstContradicted(known.chain, b, 0);
      if i < |b.chain| && b.firstSeq + i < |known.chain| {
        assert known.chain[b.firstSeq + i] != b.chain[i];
      } else if i < |b.chain| {
        forall j | 0 <= j < |b.chain| && b.firstSeq + j < |known.chain|
          ensures known.chain[b.firstSeq + j] == b.chain[j]
        {
          assert j < i;
        }
      }
    }
  }

  /** Of any peers and any bundle, whoever sent it: exactly these bundles are taken in. */
  lemma ImportAcceptsExactly(h: Hasher, sigs: Signatures, p: Peers, b: SyncBundle)
    requires LengthsMatch(p.foreign)
    ensures var known := if b.agent in p.foreign then p.foreign[b.agent] else ForeignLog([], []);
            Import(h, sigs, p, b).0.Ok? <==>
              && b.agent != "" && b.agent != p.agent
              && Genuine(sigs, p.knownKeys, b) && Intact(h, b) && Continues(known, b)
  {
    hide CheckKey, CheckLinks, CheckContinuity, Genuine, Continues, ChainOver;
    ImportRefuses(h, sigs, p, b);
    GenuineExactly(sigs, p.knownKeys, b);
    CheckedLinks(h, b);
    if b.agent != "" && b.agent != p.agent && |b.ops| == |b.chain| {
      ContinuesExactly(Known(p.foreign, b.agent), b);
    }
  }

  /** What an accepted bundle leaves: the known log and what is new in the bundle, under its agent, and
      the key it was signed with pinned. */
  lemma ImportAppends(h: Hasher, sigs: Signatures, p: Peers, b: SyncBundle)
    requires LengthsMatch(p.foreign) && Import(h, sigs, p, b).0.Ok?
    ensures var known := if b.agent in p.foreign then p.foreign[b.agent] else ForeignLog([], []);
            var p' := Import(h, sigs, p, b).1;
            && b.firstSeq <= |known.ops| && |b.ops| == |b.chain| && b.agent in p'.foreign
            && var overlap := if |known.ops| - b.firstSeq < |b.ops| then |known.ops| - b.firstSeq else |b.ops|;
               && p'.foreign[b.agent].ops == known.ops + b.ops[overlap..]
               && p'.foreign[b.agent].chain == known.chain + b.chain[overlap..]
               && p' == Peers(p.agent, p.foreign[b.agent := p'.foreign[b.agent]],
                              if b.pubkey.Some? then p.knownKeys[b.agent := b.pubkey.value] else p.knownKeys)
  {
    hide CheckKey, CheckLinks, CheckContinuity, ChainOver, Import;
    GenuineExactly(sigs, p.knownKeys, b);
    CheckedLinks(h, b);
    ImportRefuses(h, sigs, p, b);
    ContinuityStarts(Known(p.foreign, b.agent), b);
    ImportAccepts(h, sigs, p, b);
    if b.agent in p.knownKeys {
      assert p.knownKeys[b.agent := p.knownKeys[b.agent]] == p.knownKeys;
    }
  }

  /** A bundle of an agent with a pinned key that another key signed, that nobody signed, or that is signed
      in part or badly is refused, and each for its reason. */
  lemma KeyRefusals(h: Hasher, sigs: Signatures, p: Peers, b: SyncBundle)
    requires LengthsMatch(p.foreign) && b.agent != "" && b.agent != p.agent
    ensures var r := Import(h, sigs, p, b).0;
            && (b.pubkey.Some? != b.sig.Some? ==> r == Refused(BadSignature))
            && (b.pubkey.None? && b.sig.None? && b.agent in p.knownKeys ==> r == Refused(UnsignedFromPinned(b.agent)))
            && (b.pubkey.Some? && b.sig.Some? ==>
                  && var bad := sigs.check(b, b.pubkey.value, b.sig.value);
                     && (bad.Some? ==> r == Refused(bad.value))
                     && (bad.None? && b.agent in p.knownKeys && p.knownKeys[b.agent] != b.pubkey.value ==>
                           r == Refused(KeyMismatch(b.agent))))
  {
    hide CheckLinks, CheckContinuity;
  }

  /** Broken links are reported by the first step at which the chain is not that of the ops. */
  lemma FirstBadLink(h: Hasher, b: SyncBundle, t: nat)
    requires CheckLinks(h, b) == Some(Tampered(BadLink(t)))
    ensures |b.ops| == |b.chain| && b.firstSeq < t <= b.firstSeq + |b.ops|
    ensures var n := t - b.firstSeq;
            && b.chain[..n - 1] == ChainOver(h, b.anchor, b.firstSeq, b.ops[..n - 1])
            && b.chain[..n] != ChainOver(h, b.anchor, b.firstSeq, b.ops[..n])
  {
    hide Link, ChainOver;
    var i := FirstBroken(h, b, 0);
    assert t == b.firstSeq + i + 1;
    LinksHoldTo(h, b, i);
    LinksHoldTo(h, b, i + 1);
    assert !LinkHolds(h, b.anchor, b.firstSeq, b.ops, b.chain, i);
  }

  lemma LinksHoldTo(h: Hasher, b: SyncBundle, n: nat)
    requires |b.ops| == |b.chain| && n <= |b.ops|
    ensures b.chain[..n] == ChainOver(h, b.anchor, b.firstSeq, b.ops[..n])
            <==> forall i | 0 <= i < n :: LinkHolds(h, b.anchor, b.firstSeq, b.ops, b.chain, i)
  {
    hide Link, ChainOver;
    LinksHold(h, b.anchor, b.firstSeq, b.ops[..n], b.chain[..n]);
    forall i | 0 <= i < n
      ensures LinkHolds(h, b.anchor, b.firstSeq, b.ops[..n], b.chain[..n], i)
              == LinkHolds(h, b.anchor, b.firstSeq, b.ops, b.chain, i)
    {
      assert b.chain[..n][..i] == b.chain[..i];
    }
  }

  /** A genuine bundle that is not intact is refused for its lengths, its anchor or its first bad link; an
      intact one that starts past what is known, as a gap. */
  lemma ContentRefusals(h: Hasher, sigs: Signatures, p: Peers, b: SyncBundle)
    requires LengthsMatch(p.foreign) && b.agent != "" && b.agent != p.agent && Genuine(sigs, p.knownKeys, b)
    ensures var known := if b.agent in p.foreign then p.foreign[b.agent] else ForeignLog([], []);
            var r := Import(h, sigs, p, b).0;
            && (|b.ops| != |b.chain| ==> r == Refused(Tampered(LengthsDiffer)))
            && (|b.ops| == |b.chain| && b.firstSeq == 0 && b.anchor != GENESIS ==>
                  r == Refused(Tampered(GenesisAnchor)))
            && (|b.ops| == |b.chain| && (b.firstSeq == 0 ==> b.anchor == GENESIS) && !Intact(h, b) ==>
                  r.Refused? && r.error.Tampered? && r.error.reason.BadLink?)
            && (Intact(h, b) && b.firstSeq > |known.ops| ==> r == Refused(Gap(|known.ops|, b.firstSeq)))
  {
    hide CheckKey, FirstBroken, ChainOver, Genuine;
    GenuineExactly(sigs, p.knownKeys, b);
    ImportRefuses(h, sigs, p, b);
    CheckedLinks(h, b);
  }

  /** The step named in that refusal is the first one at which the chain is not that of the ops. */
  lemma BadLinkNamed(h: Hasher, sigs: Signatures, p: Peers, b: SyncBundle, t: nat)
    requires LengthsMatch(p.foreign) && b.agent != "" && b.agent != p.agent && Genuine(sigs, p.knownKeys, b)
    requires Import(h, sigs, p, b).0 == Refused(Tampered(BadLink(t)))
    ensures |b.ops| == |b.chain| && b.firstSeq < t <= b.firstSeq + |b.ops|
    ensures var n := t - b.firstSeq;
            && b.chain[..n - 1] == ChainOver(h, b.anchor, b.firstSeq, b.ops[..n - 1])
            && b.chain[..n] != ChainOver(h, b.anchor, b.firstSeq, b.ops[..n])
  {
    hide CheckKey, CheckLinks, ChainOver, Genuine, Extend, Known;
    GenuineExactly(sigs, p.knownKeys, b);
    ImportRefuses(h, sigs, p, b);
    FirstBadLink(h, b, t);
  }

  /** Compaction changes no export from the floor on: it is what the whole history would export. Before the
      floor there is nothing to export. */
  lemma ExportAfterFold(sigs: Signatures, seed: Option<string>, agent: string, ops: seq<Op>, chain: seq<string>,
                        fold: nat, since: nat)
    requires |ops| == |chain| && 0 < fold <= |ops| && agent != ""
    ensures var r := Export(sigs, seed, agent, chain[fold - 1], fold, ops[fold..], chain[fold..], since);
            if since < fold then r == Refused(CompactedHistory)
            else r == Export(sigs, seed, agent, GENESIS, 0, ops, chain, since)
  {
    if since >= fold {
      var start := if since <= |ops| then since else |ops|;
      assert ops[fold..][start - fold..] == ops[start..] && chain[fold..][start - fold..] == chain[start..];
      var before := chain[fold..][..start - fold];
      assert Head(chain[fold - 1], before) == Head(GENESIS, chain[..start]);
    }
  }

  // ----- what every import keeps -----

  /** The log is the chain from genesis that its ops have. */
  ghost predicate Verified(h: Hasher, log: ForeignLog)
  {
    log.chain == ChainOver(h, GENESIS, 0, log.ops)
  }

  ghost predicate AllVerified(h: Hasher, foreign: map<string, ForeignLog>)
  {
    forall id | id in foreign :: Verified(h, foreign[id])
  }

  /** A bundle that recomputes is a segment of the chain its ops have after its anchor. */
  lemma CheckedLinks(h: Hasher, b: SyncBundle)
    ensures CheckLinks(h, b).None? <==>
              && |b.ops| == |b.chain| && (b.firstSeq == 0 ==> b.anchor == GENESIS)
              && b.chain == ChainOver(h, b.anchor, b.firstSeq, b.ops)
  {
    hide Link, ChainOver;
    if |b.ops| == |b.chain| {
      LinksHold(h, b.anchor, b.firstSeq, b.ops, b.chain);
    }
  }

  lemma {:induction false} ChainAppend(h: Hasher, anchor: string, folded: nat, ops: seq<Op>, more: seq<Op>)
    ensures ChainOver(h, anchor, folded, ops + more)
            == ChainOver(h, anchor, folded, ops)
               + ChainOver(h, Head(anchor, ChainOver(h, anchor, folded, ops)), folded + |ops|, more)
  {
    hide Link;
    if more == [] {
      assert ops + more == ops;
    } else {
      var n := |more| - 1;
      assert (ops + more)[..|ops| + n] == ops + more[..n];
      ChainAppend(h, anchor, folded, ops, more[..n]);
    }
  }

  /** The links of the later part of a chain continue from the link before it. */
  lemma ChainTail(h: Hasher, anchor: string, folded: nat, ops: seq<Op>, n: nat)
    requires n <= |ops|
    ensures ChainOver(h, anchor, folded, ops)[n..]
            == ChainOver(h, Head(anchor, ChainOver(h, anchor, folded, ops)[..n]), folded + n, ops[n..])
  {
    hide Link, ChainOver;
    ChainAppend(h, anchor, folded, ops[..n], ops[n..]);
    ChainPrefix(h, anchor, folded, ops, n);
    assert ops == ops[..n] + ops[n..];
  }

  /** Appending the new suffix of an accepted bundle continues the verified chain. */
  lemma ExtendVerified(h: Hasher, known: ForeignLog, b: SyncBundle)
    requires Verified(h, known)
    requires CheckLinks(h, b).None? && CheckContinuity(known, b).None?
    ensures Verified(h, Extend(known, b))
    ensures known.ops <= Extend(known, b).ops && known.chain <= Extend(known, b).chain
  {
    hide Link, ChainOver, CheckLinks, FirstContradicted;
    CheckedLinks(h, b);
    var rest := |known.ops| - b.firstSeq;
    var overlap := if rest < |b.ops| then rest else |b.ops|;
    var more := b.ops[overlap..];
    ChainAppend(h, GENESIS, 0, known.ops, more);
    ChainTail(h, b.anchor, b.firstSeq, b.ops, overlap);
    if more != [] {
      assert overlap == rest;
      var i := FirstContradicted(known.chain, b, 0);
      assert i == overlap;
      assert Head(b.anchor, b.chain[..overlap]) == Head(GENESIS, known.chain);
    } else {
      assert ChainOver(h, Head(GENESIS, known.chain), |known.ops|, more) == [] && b.chain[overlap..] == [];
    }
  }

  /** Every import keeps every foreign log a verified chain from genesis, only ever extends logs,
      counts exactly what it appended, never changes a pinned key, and on refusal changes nothing. */
  lemma ImportKeeps(h: Hasher, sigs: Signatures, p: Peers, b: SyncBundle)
    requires LengthsMatch(p.foreign) && AllVerified(h, p.foreign)
    ensures var (r, p') := Import(h, sigs, p, b);
            && LengthsMatch(p'.foreign) && AllVerified(h, p'.foreign)
            && (r.Refused? ==> p' == p)
            && p'.agent == p.agent
            && (forall id | id in p.foreign :: id in p'.foreign && p.foreign[id].ops <= p'.foreign[id].ops)
            && (forall id | id in p'.foreign && id != b.agent :: id in p.foreign && p'.foreign[id] == p.foreign[id])
            && (r.Ok? ==> b.agent in p'.foreign && b.agent != p.agent
                          && r.value == |p'.foreign[b.agent].ops| - |Known(p.foreign, b.agent).ops|)
            && (forall id | id in p.knownKeys :: id in p'.knownKeys && p'.knownKeys[id] == p.knownKeys[id])
            && (forall id | id in p'.knownKeys && id !in p.knownKeys ::
                  id == b.agent && b.pubkey == Some(p'.knownKeys[id]) && r.Ok?)
  {
    hide Link, ChainOver, CheckLinks, CheckContinuity, CheckKey, Extend, Verified;
    var (r, p') := Import(h, sigs, p, b);
    if r.Ok? {
      var known := Known(p.foreign, b.agent);
      KnownVerified(h, p.foreign, b.agent);
      CheckedLinks(h, b);
      ContinuityStarts(known, b);
      ExtendVerified(h, known, b);
      ExtendLengths(known, b);
      CheckedKey(sigs, p.knownKeys, b);
    }
  }

  lemma KnownVerified(h: Hasher, foreign: map<string, ForeignLog>, id: string)
    requires LengthsMatch(foreign) && AllVerified(h, foreign)
    ensures Verified(h, Known(foreign, id)) && |Known(foreign, id).ops| == |Known(foreign, id).chain|
  {
  }

  lemma ContinuityStarts(known: ForeignLog, b: SyncBundle)
    requires |known.ops| == |known.chain| && |b.ops| == |b.chain|
    ensures CheckContinuity(known, b).None? ==> b.firstSeq <= |known.ops|
  {
  }

  lemma ExtendLengths(known: ForeignLog, b: SyncBundle)
    requires |known.ops| == |known.chain| && |b.ops| == |b.chain| && b.firstSeq <= |known.ops|
    ensures |Extend(known, b).ops| == |Extend(known, b).chain| >= |known.ops|
  {
  }

  lemma CheckedKey(sigs: Signatures, knownKeys: map<string, string>, b: SyncBundle)
    ensures CheckKey(sigs, knownKeys, b).Ok? && CheckKey(sigs, knownKeys, b).value.Some? ==>
              b.agent !in knownKeys && b.pubkey == CheckKey(sigs, knownKeys, b).value
  {
  }

  // ----- equivocation -----

  /** The bundle cut from history `hist` at step `s`. */
  function Cut(h: Hasher, agent: string, hist: seq<Op>, s: nat, pubkey: Option<string>,
               sig: Option<string>): SyncBundle
    requires s <= |hist|
  {
    var chain := ChainOver(h, GENESIS, 0, hist);
    SyncBundle(1, agent, s, Head(GENESIS, chain[..s]), hist[s..], chain[s..], pubkey, sig)
  }

  function Shared(a: seq<Op>, b: seq<Op>): nat
  {
    if |a| < |b| then |a| else |b|
  }

  lemma CutChecks(h: Hasher, agent: string, hist: seq<Op>, s: nat, pubkey: Option<string>, sig: Option<string>)
    requires s <= |hist|
    ensures CheckLinks(h, Cut(h, agent, hist, s, pubkey, sig)).None?
  {
    hide Link, ChainOver, CheckLinks;
    ChainTail(h, GENESIS, 0, hist, s);
    CheckedLinks(h, Cut(h, agent, hist, s, pubkey, sig));
  }

  /** What the continuity check compares: the link before the cut, and every link after it that
      both sides have. */
  lemma ContinuityCompares(known: ForeignLog, b: SyncBundle, links: seq<string>)
    requires |known.ops| == |known.chain| && |b.ops| == |b.chain|
    requires b.firstSeq <= |known.ops| && b.firstSeq <= |links|
    requires b.anchor == Head(GENESIS, links[..b.firstSeq]) && b.chain == links[b.firstSeq..]
    ensures var n := if |known.ops| < |links| then |known.ops| else |links|;
            var verdict := CheckContinuity(known, b);
            && (verdict.None? ==> n > 0 ==> known.chain[n - 1] == links[n - 1])
            && (verdict.Some? ==> verdict.value.Diverged?
                                  && 0 < verdict.value.at <= n
                                  && known.chain[verdict.value.at - 1] != links[verdict.value.at - 1])
  {
    hide FirstContradicted;
    var n := if |known.ops| < |links| then |known.ops| else |links|;
    var i := FirstContradicted(known.chain, b, 0);
    if n > b.firstSeq {
      assert b.chain[n - b.firstSeq - 1] == links[n - 1];
    }
    if i < |b.chain| {
      assert b.chain[i] == links[b.firstSeq + i];
    }
  }

  /** A divergence past the cut comes right after a link that both sides have in common, if any. */
  lemma DivergenceFollows(known: ForeignLog, b: SyncBundle, links: seq<string>)
    requires |known.ops| == |known.chain| && |b.ops| == |b.chain|
    requires b.firstSeq <= |known.ops| && b.firstSeq <= |links|
    requires b.anchor == Head(GENESIS, links[..b.firstSeq]) && b.chain == links[b.firstSeq..]
    requires CheckContinuity(known, b).Some? && CheckContinuity(known, b).value.Diverged?
    ensures var at := CheckContinuity(known, b).value.at;
            && b.firstSeq <= at && 0 < at <= |known.chain| && at <= |links|
            && (at > b.firstSeq && at > 1 ==> known.chain[at - 2] == links[at - 2])
  {
    hide FirstContradicted;
    var at := CheckContinuity(known, b).value.at;
    var i := FirstContradicted(known.chain, b, 0);
    if at > b.firstSeq && i > 0 {
      assert b.chain[i - 1] == links[b.firstSeq + i - 1];
    }
  }

  lemma SamePrefixSameLinks(h: Hasher, a: seq<Op>, b: seq<Op>, n: nat)
    requires 0 < n <= |a| && n <= |b| && a[..n] == b[..n]
    ensures ChainOver(h, GENESIS, 0, a)[n - 1] == ChainOver(h, GENESIS, 0, b)[n - 1]
  {
    hide ChainOver;
    ChainPrefix(h, GENESIS, 0, a, n);
    ChainPrefix(h, GENESIS, 0, b, n);
    assert ChainOver(h, GENESIS, 0, a)[..n][n - 1] == ChainOver(h, GENESIS, 0, b)[..n][n - 1];
  }

  /** Detection is exact. A known log and a bundle cut from any self-consistent history, at a step
      the known log reaches, pass the continuity check when they agree on their whole shared prefix,
      steps before the cut included; otherwise the bundle is reported as divergent, or two texts that
      these two histories hash at one step collide. A report always points past a real disagreement. */
  lemma EquivocationExact(h: Hasher, agent: string, known: seq<Op>, hist: seq<Op>, s: nat,
                          pubkey: Option<string>, sig: Option<string>)
    requires Lawful(h) && s <= |known| && s <= |hist|
    ensures var n := Shared(known, hist);
            var b := Cut(h, agent, hist, s, pubkey, sig);
            var verdict := CheckContinuity(ForeignLog(known, ChainOver(h, GENESIS, 0, known)), b);
            && (known[..n] == hist[..n] ==> verdict.None?)
            && (known[..n] != hist[..n] ==>
                  || (verdict.Some? && verdict.value.Diverged?)
                  || exists i :: 0 <= i < n && CollideAt(h, GENESIS, 0, hist, known, i))
            && (verdict.Some? ==> verdict.value.Diverged? && verdict.value.at <= n
                                  && known[..verdict.value.at] != hist[..verdict.value.at])
  {
    hide ChainOver, CheckContinuity, Lawful, CollideAt;
    var n := Shared(known, hist);
    var kc, hc := ChainOver(h, GENESIS, 0, known), ChainOver(h, GENESIS, 0, hist);
    var b := Cut(h, agent, hist, s, pubkey, sig);
    var verdict := CheckContinuity(ForeignLog(known, kc), b);
    ContinuityCompares(ForeignLog(known, kc), b, hc);
    if verdict.None? {
      LinkBinds(h, GENESIS, 0, hist, known, n);
    } else {
      var at := verdict.value.at;
      assert known[..n][..at] == known[..at] && hist[..n][..at] == hist[..at];
      if known[..at] == hist[..at] {
        SamePrefixSameLinks(h, known, hist, at);
      }
    }
  }

  lemma ShorterAgrees(a: seq<Op>, b: seq<Op>, n: nat, m: nat)
    requires m <= n <= |a| && n <= |b|
    ensures a[..n] == b[..n] ==> a[..m] == b[..m]
  {
    assert a[..n][..m] == a[..m] && b[..n][..m] == b[..m];
  }

  /** The step a divergence reports is never before the cut. It is the first step at which the two
      histories disagree exactly when they agree on everything before the step of the anchor, up to a
      collision; the links before the anchor are not compared. */
  lemma DivergedAtExactly(h: Hasher, agent: string, known: seq<Op>, hist: seq<Op>, s: nat,
                          pubkey: Option<string>, sig: Option<string>)
    requires Lawful(h) && s <= |known| && s <= |hist|
    requires CheckContinuity(ForeignLog(known, ChainOver(h, GENESIS, 0, known)),
        Cut(h, agent, hist, s, pubkey, sig)).Some?
    ensures var verdict := CheckContinuity(ForeignLog(known, ChainOver(h, GENESIS, 0, known)),
        Cut(h, agent, hist, s, pubkey, sig));
            var before := if s == 0 then 0 else s - 1;
            && verdict.value.Diverged?
            && var at := verdict.value.at;
               && s <= at && 0 < at <= Shared(known, hist)
               && (known[..at - 1] == hist[..at - 1] ==> known[..before] == hist[..before])
               && (known[..before] == hist[..before] ==>
                     || known[..at - 1] == hist[..at - 1]
                     || exists i :: 0 <= i < at - 1 && CollideAt(h, GENESIS, 0, hist, known, i))
  {
    hide ChainOver, Lawful, CollideAt, CheckContinuity, Head;
    var kc, hc := ChainOver(h, GENESIS, 0, known), ChainOver(h, GENESIS, 0, hist);
    var b := Cut(h, agent, hist, s, pubkey, sig);
    ContinuityCompares(ForeignLog(known, kc), b, hc);
    DivergenceFollows(ForeignLog(known, kc), b, hc);
    AgreesBefore(h, known, hist, s, CheckContinuity(ForeignLog(known, kc), b).value.at);
  }

  /** What a common link right before a divergence says of the histories. */
  lemma AgreesBefore(h: Hasher, known: seq<Op>, hist: seq<Op>, s: nat, at: nat)
    requires Lawful(h) && s <= at && 0 < at <= Shared(known, hist)
    requires at > s && at > 1 ==> ChainOver(h, GENESIS, 0, known)[at - 2] == ChainOver(h, GENESIS, 0, hist)[at - 2]
    ensures var before := if s == 0 then 0 else s - 1;
            && (known[..at - 1] == hist[..at - 1] ==> known[..before] == hist[..before])
            && (known[..before] == hist[..before] ==>
                  || known[..at - 1] == hist[..at - 1]
                  || exists i :: 0 <= i < at - 1 && CollideAt(h, GENESIS, 0, hist, known, i))
  {
    hide ChainOver, Lawful, CollideAt;
    ShorterAgrees(known, hist, at - 1, if s == 0 then 0 else s - 1);
    if at > s {
      GenesisHasNoBar();
      LinkBinds(h, GENESIS, 0, hist, known, at - 1);
    }
  }

  /** So an import of such a bundle, unsigned from an unpinned agent or validly signed by the pinned
      key, succeeds exactly when the two histories agree, up to a collision of their own texts; it is
      refused only as divergent. */
  lemma ImportDetects(h: Hasher, sigs: Signatures, p: Peers, agent: string, hist: seq<Op>, s: nat,
                      pubkey: Option<string>, sig: Option<string>)
    requires Lawful(h) && LengthsMatch(p.foreign) && AllVerified(h, p.foreign)
    requires agent != "" && agent != p.agent
    requires s <= |Known(p.foreign, agent).ops| && s <= |hist|
    requires || (pubkey.None? && sig.None? && agent !in p.knownKeys)
             || (pubkey.Some? && sig.Some? && agent in p.knownKeys && p.knownKeys[agent] == pubkey.value
                 && sigs.check(Cut(h, agent, hist, s, pubkey, sig), pubkey.value, sig.value).None?)
    ensures var r := Import(h, sigs, p, Cut(h, agent, hist, s, pubkey, sig)).0;
            var known := Known(p.foreign, agent).ops;
            var n := Shared(known, hist);
            && (r.Ok? || r.error.Diverged?)
            && (known[..n] == hist[..n] ==> r == Ok(|hist| - n))
            && (known[..n] != hist[..n]
                ==> r.Refused? || exists i :: 0 <= i < n && CollideAt(h, GENESIS, 0, hist, known, i))
  {
    hide ChainOver, CheckContinuity, CheckLinks, Lawful, CollideAt, Verified;
    var known := Known(p.foreign, agent);
    KnownVerified(h, p.foreign, agent);
    VerifiedLog(h, known);
    CutChecks(h, agent, hist, s, pubkey, sig);
    EquivocationExact(h, agent, known.ops, hist, s, pubkey, sig);
  }

  lemma VerifiedLog(h: Hasher, log: ForeignLog)
    requires Verified(h, log)
    ensures log == ForeignLog(log.ops, ChainOver(h, GENESIS, 0, log.ops))
  {
  }
}
