/** The chained event log: appending, checking integrity, and what the last hash commits to. */
module EventLog {
  import opened Bytes
  import Format = SegmentFormat

  type U64 = n: nat | n < 0x1_0000_0000_0000_0000

  datatype Event = Event(id: U64, payload: Bytes, timestamp: nat, source: Bytes)

  datatype Link = Link(eventId: U64, hash: Bytes, previousHash: Bytes)

  datatype LogError = MissingEvent(at: nat) | ChainBroken(at: nat) | HashMismatch(at: nat)

  datatype IntegrityReport = IntegrityReport(valid: bool, totalEvents: nat, verifiedEvents: nat, errors: seq<LogError>)

  type Digest = Bytes -> Bytes

  /** The bytes of the word GENESIS. */
  const GENESIS: Bytes := [71, 69, 78, 69, 83, 73, 83]

  predicate IsHex(b: byte)
  {
    48 <= b <= 57 || 97 <= b <= 102
  }

  /** A digest is 64 lower-case hexadecimal digits; nothing is assumed about collisions. */
  ghost predicate HexDigest(sha: Digest)
  {
    forall b: Bytes :: |sha(b)| == 64 && forall i | 0 <= i < 64 :: IsHex(sha(b)[i])
  }

  /** What a link hashes: eight bytes of id, the payload, and the hash before it; no timestamp. */
  function LinkBytes(id: U64, payload: Bytes, previousHash: Bytes): Bytes
  {
    Format.LittleEndian(id, 8) + payload + previousHash
  }

  function LinkHash(sha: Digest, id: U64, payload: Bytes, previousHash: Bytes): Bytes
  {
    sha(LinkBytes(id, payload, previousHash))
  }

  function HashBefore(chain: seq<Link>, i: nat): Bytes
    requires i <= |chain|
  {
    if i == 0 then GENESIS else chain[i - 1].hash
  }

  predicate PreviousHolds(chain: seq<Link>, i: nat)
    requires i < |chain|
  {
    chain[i].previousHash == HashBefore(chain, i)
  }

  predicate HashHolds(sha: Digest, events: seq<Event>, chain: seq<Link>, i: nat)
    requires i < |chain| && i < |events|
  {
    LinkHash(sha, events[i].id, events[i].payload, chain[i].previousHash) == chain[i].hash
  }

  /** A link has its event, continues the link before it and recomputes. */
  predicate Holds(sha: Digest, events: seq<Event>, chain: seq<Link>, i: nat)
    requires i < |chain|
  {
    i < |events| && PreviousHolds(chain, i) && HashHolds(sha, events, chain, i)
  }

  ghost predicate Intact(sha: Digest, events: seq<Event>, chain: seq<Link>)
  {
    && |chain| <= |events|
    && forall i | 0 <= i < |chain| :: Holds(sha, events, chain, i)
  }

  class DistributedEventLog {
    const sha: Digest
    var events: seq<Event>
    var chain: seq<Link>
    var nextId: nat

    /** What a log built by appends looks like: one link an event, ids from zero on. */
    ghost predicate Valid()
      reads this
    {
      && Intact(sha, events, chain) && |chain| == |events| == nextId <= Format.U64_LIMIT
      && forall i | 0 <= i < |events| :: events[i].id == chain[i].eventId == i
    }

    constructor (sha: Digest)
      ensures Valid() && this.sha == sha && events == [] && chain == []
    {
      this.sha := sha;
      events, chain, nextId := [], [], 0;
    }

    /** The time comes from outside and is not hashed. */
    method Append(payload: Bytes, source: Bytes, now: nat) returns (id: nat)
      requires Valid() && nextId < Format.U64_LIMIT
      modifies this`events, this`chain, this`nextId
      ensures Valid()
      ensures id == |old(events)| && events == old(events) + [Event(id, payload, now, source)]
      ensures |chain| == |old(chain)| + 1 && old(chain) <= chain
    {
      id := nextId;
      nextId := nextId + 1;
      var previousHash := if chain == [] then GENESIS else chain[|chain| - 1].hash;
      var hash := LinkHash(sha, id, payload, previousHash);
      AppendKeeps(sha, events, chain, Event(id, payload, now, source), Link(id, hash, previousHash));
      chain := chain + [Link(id, hash, previousHash)];
      events := events + [Event(id, payload, now, source)];
    }

    /** Checked on any log, however it was loaded: the report names each bad position, and is clean
        exactly when the log is intact. Events past the end of the chain are not looked at. */
    method VerifyIntegrity() returns (r: IntegrityReport)
      ensures r.valid <==> r.errors == []
      ensures r.valid <==> Intact(sha, events, chain)
      ensures forall i | 0 <= i < |chain| ::
                && (MissingEvent(i) in r.errors <==> i >= |events|)
                && (i < |events| ==> (ChainBroken(i) in r.errors <==> !PreviousHolds(chain, i))
                                     && (HashMismatch(i) in r.errors <==> !HashHolds(sha, events, chain, i)))
      ensures r.totalEvents == if chain == [] then 0 else |events|
      ensures r.verifiedEvents == if |chain| <= |events| then |chain| else |events|
    {
      hide LinkHash;
      if chain == [] {
        return IntegrityReport(true, 0, 0, []);
      }
      var errors: seq<LogError> := [];
      var verified := 0;
      for i := 0 to |chain|
        invariant verified == if i <= |events| then i else |events|
        invariant forall e | e in errors :: e.at < i
        invariant forall j | 0 <= j < i ::
                    && (MissingEvent(j) in errors <==> j >= |events|)
                    && (j < |events| ==> (ChainBroken(j) in errors <==> !PreviousHolds(chain, j))
                                         && (HashMismatch(j) in errors <==> !HashHolds(sha, events, chain, j)))
        invariant errors == [] <==> forall j | 0 <= j < i :: Holds(sha, events, chain, j)
      {
        assert Holds(sha, events, chain, i)
            <==> i < |events| && PreviousHolds(chain, i) && HashHolds(sha, events, chain, i);
        if i >= |events| {
          errors := errors + [MissingEvent(i)];
          continue;
        }
        var expected := if i == 0 then GENESIS else chain[i - 1].hash;
        if chain[i].previousHash != expected {
          errors := errors + [ChainBroken(i)];
        }
        var recomputed := LinkHash(sha, events[i].id, events[i].payload, chain[i].previousHash);
        if recomputed != chain[i].hash {
          errors := errors + [HashMismatch(i)];
        }
        verified := verified + 1;
      }
      assert Holds(sha, events, chain, |chain| - 1) ==> |chain| <= |events|;
      return IntegrityReport(errors == [], |events|, verified, errors);
    }
  }

  lemma AppendKeeps(sha: Digest, events: seq<Event>, chain: seq<Link>, event: Event, link: Link)
    requires Intact(sha, events, chain) && |chain| == |events|
    requires link.previousHash == HashBefore(chain, |chain|)
    requires link.hash == LinkHash(sha, event.id, event.payload, link.previousHash)
    ensures Intact(sha, events + [event], chain + [link])
  {
    hide LinkHash;
    var events', chain' := events + [event], chain + [link];
    forall i | 0 <= i < |chain'|
      ensures Holds(sha, events', chain', i)
    {
      if i < |chain| {
        assert Holds(sha, events, chain, i);
      }
    }
  }

  // ----- what a hash binds -----

  /** The bytes hashed at a position of an intact log. */
  function InputAt(events: seq<Event>, chain: seq<Link>, i: nat): Bytes
    requires i < |chain| && i < |events|
  {
    LinkBytes(events[i].id, events[i].payload, chain[i].previousHash)
  }

  ghost predicate Collide(sha: Digest, x: Bytes, y: Bytes)
  {
    x != y && sha(x) == sha(y)
  }

  lemma IdTells(m: U64, n: U64)
    requires Format.LittleEndian(m, 8) == Format.LittleEndian(n, 8)
    ensures m == n
  {
    Format.Widths();
    Format.LittleEndianRoundTrip(m, 8);
    Format.LittleEndianRoundTrip(n, 8);
  }

  /** Equal texts have equal ids, payloads and previous hashes: the previous hash is either GENESIS,
      which ends in no hexadecimal digit, or 64 of them. */
  lemma LinkBytesTell(m: U64, a: Bytes, p: Bytes, n: U64, b: Bytes, q: Bytes)
    requires p == GENESIS || (|p| == 64 && IsHex(p[63]))
    requires q == GENESIS || (|q| == 64 && IsHex(q[63]))
    requires LinkBytes(m, a, p) == LinkBytes(n, b, q)
    ensures m == n && a == b && p == q
  {
    var x, y := LinkBytes(m, a, p), LinkBytes(n, b, q);
    assert x[..8] == Format.LittleEndian(m, 8) && y[..8] == Format.LittleEndian(n, 8);
    IdTells(m, n);
    assert x[|x| - 1] == p[|p| - 1] && y[|y| - 1] == q[|q| - 1];
    assert |p| == |q|;
    assert x[8..|x| - |p|] == a && y[8..|y| - |q|] == b;
    assert x[|x| - |p|..] == p && y[|y| - |q|..] == q;
  }

  lemma PreviousIsWellFormed(sha: Digest, events: seq<Event>, chain: seq<Link>, i: nat)
    requires HexDigest(sha) && Intact(sha, events, chain) && i < |chain|
    ensures var p := chain[i].previousHash;
            if i == 0 then p == GENESIS else |p| == 64 && IsHex(p[63])
  {
    hide LinkBytes;
    assert Holds(sha, events, chain, i);
    if i > 0 {
      assert Holds(sha, events, chain, i - 1);
    }
  }

  ghost predicate CollideAt(sha: Digest, e: seq<Event>, c: seq<Link>, i: int, e': seq<Event>, c': seq<Link>, j: int)
  {
    0 <= i < |c| && i < |e| && 0 <= j < |c'| && j < |e'| && Collide(sha, InputAt(e, c, i), InputAt(e', c', j))
  }

  /** Equal hashes at two positions of intact logs mean equal histories up to there, at one position,
      unless two texts these logs hashed collide. */
  lemma {:induction false} HashBinds(sha: Digest, e: seq<Event>, c: seq<Link>, i: nat, e': seq<Event>,
                                     c': seq<Link>, j: nat)
    requires HexDigest(sha) && Intact(sha, e, c) && Intact(sha, e', c')
    requires i < |c| && j < |c'| && c[i].hash == c'[j].hash
    ensures || (i == j && forall k | 0 <= k <= i :: e[k].id == e'[k].id && e[k].payload == e'[k].payload)
            || exists k, l :: CollideAt(sha, e, c, k, e', c', l)
    decreases i
  {
    hide LinkBytes, Collide;
    assert Holds(sha, e, c, i) && Holds(sha, e', c', j);
    if InputAt(e, c, i) != InputAt(e', c', j) {
      assert CollideAt(sha, e, c, i, e', c', j) by {
        Colliding(sha, InputAt(e, c, i), InputAt(e', c', j));
      }
    } else {
      PreviousIsWellFormed(sha, e, c, i);
      PreviousIsWellFormed(sha, e', c', j);
      LinkBytesTell(e[i].id, e[i].payload, c[i].previousHash, e'[j].id, e'[j].payload, c'[j].previousHash);
      if i > 0 && j > 0 {
        HashBinds(sha, e, c, i - 1, e', c', j - 1);
      }
    }
  }

  lemma Colliding(sha: Digest, x: Bytes, y: Bytes)
    requires x != y && sha(x) == sha(y)
    ensures Collide(sha, x, y)
  {
  }

  /** So two logs that both verify and end in one hash have chains of one length and the same ids and
      payloads at every chained position, or exhibit a collision. */
  lemma LastHashBinds(sha: Digest, e: seq<Event>, c: seq<Link>, e': seq<Event>, c': seq<Link>)
    requires HexDigest(sha) && Intact(sha, e, c) && Intact(sha, e', c')
    requires c != [] && c' != [] && c[|c| - 1].hash == c'[|c'| - 1].hash
    ensures || (|c| == |c'| && forall k | 0 <= k < |c| :: e[k].id == e'[k].id && e[k].payload == e'[k].payload)
            || exists k, l :: CollideAt(sha, e, c, k, e', c', l)
  {
    hide Intact, HexDigest, CollideAt;
    HashBinds(sha, e, c, |c| - 1, e', c', |c'| - 1);
  }

  /** What verification does not cover: timestamps, sources, the ids recorded in links, and any event
      past the end of the chain may be anything. */
  lemma NotCovered(sha: Digest, events: seq<Event>, chain: seq<Link>, events': seq<Event>, chain': seq<Link>)
    requires Intact(sha, events, chain) && |chain'| == |chain| <= |events'|
    requires forall i | 0 <= i < |chain| ::
               && events'[i].id == events[i].id && events'[i].payload == events[i].payload
               && chain'[i] == chain[i].(eventId := chain'[i].eventId)
    ensures Intact(sha, events', chain')
  {
    hide LinkHash;
    forall i | 0 <= i < |chain'|
      ensures Holds(sha, events', chain', i)
    {
      assert Holds(sha, events, chain, i);
    }
  }
}
