/** The hash-chained op-log: what a link commits to, and what verifying a chain proves. */
module Timeline {
  import opened Options
  import opened DecimalText

  /** An `f64`, carried by its bits: the log only stores and compares it. */
  type Float = bits: nat | bits < 0x1_0000_0000_0000_0000

  datatype Recall =
    | WorkingSet
    | Around(uri: string)
    | Task(text: string)
    | Semantic(text: string)
    | Hybrid(text: string)
    | CausalFlash(params: seq<Float>)

  datatype Op =
    | Ingest(uri: string, source: string)
    | Failure(node: string, depth: nat)
    | Recalled(recall: Recall, budget: nat)
    | PageFault(files: seq<string>, depth: nat)
    | Retune(weights: seq<Float>)
    | Assert(evidence: string, claim: string, supports: bool, weight: Float)

  /** The two functions a link is built from: SHA-256 in hexadecimal, and an op's JSON. */
  datatype Hasher = Hasher(sha: string -> string, json: Op -> string)

  const GENESIS: string := "GENESIS"

  /** What the chain needs of them: digests of one length without a `|`, and JSON that tells ops apart.
      Nothing is assumed about collisions of `sha`. */
  ghost predicate Lawful(h: Hasher)
  {
    && (forall s: string :: |h.sha(s)| == 64 && '|' !in h.sha(s))
    && (forall a: Op, b: Op :: h.json(a) == h.json(b) ==> a == b)
  }

  /** The text a link hashes. */
  function Preimage(h: Hasher, prev: string, step: nat, op: Op): string
  {
    prev + "|" + Decimal(step) + "|" + h.json(op)
  }

  function Link(h: Hasher, prev: string, step: nat, op: Op): string
  {
    h.sha(Preimage(h, prev, step, op))
  }

  function Head(anchor: string, chain: seq<string>): string
  {
    if chain == [] then anchor else chain[|chain| - 1]
  }

  /** The chain `ops` have when they follow `anchor` at absolute step `folded`. */
  function ChainOver(h: Hasher, anchor: string, folded: nat, ops: seq<Op>): (chain: seq<string>)
    ensures |chain| == |ops|
  {
    if ops == [] then []
    else
      var n := |ops| - 1;
      var before := ChainOver(h, anchor, folded, ops[..n]);
      before + [Link(h, Head(anchor, before), folded + n, ops[n])]
  }

  method ComputeChain(h: Hasher, anchor: string, folded: nat, ops: seq<Op>) returns (chain: seq<string>)
    ensures chain == ChainOver(h, anchor, folded, ops)
  {
    hide Link;
    chain := [];
    var prev := anchor;
    for i := 0 to |ops|
      invariant chain == ChainOver(h, anchor, folded, ops[..i])
      invariant prev == Head(anchor, chain)
    {
      assert ops[..i + 1][..i] == ops[..i];
      var link := Link(h, prev, folded + i, ops[i]);
      chain := chain + [link];
      prev := link;
    }
    assert ops[..|ops|] == ops;
  }

  // ----- verification -----

  datatype TimelineError = BaselineMismatch | LengthMismatch | LinkBroken(step: nat)

  datatype LogIntegrity = LogIntegrity(valid: bool, verified: nat, errors: seq<TimelineError>)

  /** Link `i` recomputes from the link stored before it. */
  predicate LinkHolds(h: Hasher, anchor: string, folded: nat, ops: seq<Op>, chain: seq<string>, i: nat)
    requires i < |ops| && i < |chain|
  {
    Link(h, Head(anchor, chain[..i]), folded + i, ops[i]) == chain[i]
  }

  /** Every stored link recomputes exactly when the chain is the one the ops have. */
  lemma {:induction false} LinksHold(h: Hasher, anchor: string, folded: nat, ops: seq<Op>, chain: seq<string>)
    requires |ops| == |chain|
    ensures chain == ChainOver(h, anchor, folded, ops)
            <==> forall i | 0 <= i < |ops| :: LinkHolds(h, anchor, folded, ops, chain, i)
    decreases |ops|
  {
    hide Link;
    if ops == [] {
      assert chain == [];
    } else {
      var n := |ops| - 1;
      var before := ChainOver(h, anchor, folded, ops[..n]);
      LinksHold(h, anchor, folded, ops[..n], chain[..n]);
      forall i | 0 <= i < n
        ensures LinkHolds(h, anchor, folded, ops[..n], chain[..n], i)
                == LinkHolds(h, anchor, folded, ops, chain, i)
      {
        assert chain[..n][..i] == chain[..i];
      }
      assert chain == chain[..n] + [chain[n]];
      if forall i | 0 <= i < |ops| :: LinkHolds(h, anchor, folded, ops, chain, i) {
        assert LinkHolds(h, anchor, folded, ops, chain, n);
      }
      if chain == ChainOver(h, anchor, folded, ops) {
        assert chain[..n] == before;
        forall i | 0 <= i < |ops|
          ensures LinkHolds(h, anchor, folded, ops, chain, i)
        {
          if i < n {
            assert LinkHolds(h, anchor, folded, ops[..n], chain[..n], i);
          }
        }
      }
    }
  }

  /** The chain commitment to a replay baseline; empty when the timeline replays from nothing. */
  function BaselineCommitment<S>(commit: S -> string, baseline: Option<S>): string
  {
    match baseline
    case Some(s) => commit(s)
    case None => ""
  }

  /** A baseline matches its commitment, and no other baseline does but one committed to alike. */
  lemma BaselineBinds<S>(commit: S -> string, s: S, t: S)
    ensures BaselineCommitment(commit, Some(s)) == commit(s) && BaselineCommitment(commit, None) == ""
    ensures BaselineCommitment(commit, Some(s)) == BaselineCommitment(commit, Some(t)) <==> commit(s) == commit(t)
  {
  }

  /** Verification succeeds exactly on a sidecar from before chains existed, or when the baseline
      matches its commitment and the chain is the one the ops have; a broken link is reported by step. */
  method VerifyTimelineParts<S>(h: Hasher, commit: S -> string, anchor: string, folded: nat, ops: seq<Op>,
                                chain: seq<string>, baseline: Option<S>, baselineHash: string)
    returns (r: LogIntegrity)
    ensures r.valid <==>
              || (chain == [] && anchor == "" && baselineHash == "")
              || (baselineHash == (if baseline.Some? then commit(baseline.value) else "")
                  && chain == ChainOver(h, anchor, folded, ops))
    ensures r.valid <==> r.errors == []
    ensures !(chain == [] && anchor == "" && baselineHash == "") ==>
              && (forall i | 0 <= i < |ops| && i < |chain| ::
                    LinkBroken(folded + i + 1) in r.errors <==> !LinkHolds(h, anchor, folded, ops, chain, i))
              && (r.valid ==> r.verified == |ops|)
  {
    hide Link, ChainOver;
    if chain == [] && anchor == "" && baselineHash == "" {
      return LogIntegrity(true, 0, []);
    }
    var errors: seq<TimelineError> := [];
    var verified := 0;
    if BaselineCommitment(commit, baseline) != baselineHash {
      errors := errors + [BaselineMismatch];
    }
    if |chain| != |ops| {
      errors := errors + [LengthMismatch];
    }
    var prev := anchor;
    var count := if |ops| < |chain| then |ops| else |chain|;
    for i := 0 to count
      invariant prev == Head(anchor, chain[..i])
      invariant verified <= i
      invariant forall j | 0 <= j < i ::
                  LinkBroken(folded + j + 1) in errors <==> !LinkHolds(h, anchor, folded, ops, chain, j)
      invariant forall e | e in errors && e.LinkBroken? :: folded < e.step <= folded + i
      invariant errors == [] ==> verified == i
      invariant (errors == []) <==>
                  && BaselineCommitment(commit, baseline) == baselineHash && |chain| == |ops|
                  && forall j | 0 <= j < i :: LinkHolds(h, anchor, folded, ops, chain, j)
    {
      assert LinkHolds(h, anchor, folded, ops, chain, i) == (Link(h, prev, folded + i, ops[i]) == chain[i]);
      if Link(h, prev, folded + i, ops[i]) == chain[i] {
        verified := verified + 1;
      } else {
        errors := errors + [LinkBroken(folded + i + 1)];
      }
      prev := chain[i];
    }
    if |chain| == |ops| {
      LinksHold(h, anchor, folded, ops, chain);
    }
    return LogIntegrity(errors == [], verified, errors);
  }

  // ----- what a head commits to -----

  lemma FirstBar(p: string, r: string)
    requires '|' !in p
    ensures var t := p + "|" + r;
            t[|p|] == '|' && t[..|p|] == p && t[|p| + 1..] == r && forall i | 0 <= i < |p| :: t[i] != '|'
  {
  }

  lemma SplitAtBar(p: string, r: string, q: string, s: string)
    requires '|' !in p && '|' !in q
    requires p + "|" + r == q + "|" + s
    ensures p == q && r == s
  {
    FirstBar(p, r);
    FirstBar(q, s);
    assert |p| == |q|;
  }

  /** The text of a link determines the predecessor, the step and the op. */
  lemma PreimageTells(h: Hasher, p: string, m: nat, a: Op, q: string, n: nat, b: Op)
    requires Lawful(h) && '|' !in p && '|' !in q
    requires Preimage(h, p, m, a) == Preimage(h, q, n, b)
    ensures p == q && m == n && a == b
  {
    hide Decimal;
    assert Preimage(h, p, m, a) == p + "|" + (Decimal(m) + "|" + h.json(a));
    assert Preimage(h, q, n, b) == q + "|" + (Decimal(n) + "|" + h.json(b));
    SplitAtBar(p, Decimal(m) + "|" + h.json(a), q, Decimal(n) + "|" + h.json(b));
    DecimalSize(m);
    DecimalSize(n);
    SplitAtBar(Decimal(m), h.json(a), Decimal(n), h.json(b));
    DecimalTells(m, n);
  }

  /** The text hashed into link `i` of a timeline. */
  function LinkInput(h: Hasher, anchor: string, folded: nat, ops: seq<Op>, i: nat): string
    requires i < |ops|
  {
    Preimage(h, Head(anchor, ChainOver(h, anchor, folded, ops[..i])), folded + i, ops[i])
  }

  /** Two link inputs of these very timelines that are different texts with one digest. */
  ghost predicate Collide(h: Hasher, x: string, y: string)
  {
    x != y && h.sha(x) == h.sha(y)
  }

  ghost predicate CollideAt(h: Hasher, anchor: string, folded: nat, a: seq<Op>, b: seq<Op>, i: nat)
    requires i < |a| && i < |b|
  {
    Collide(h, LinkInput(h, anchor, folded, a, i), LinkInput(h, anchor, folded, b, i))
  }

  lemma ChainLast(h: Hasher, anchor: string, folded: nat, ops: seq<Op>)
    requires ops != []
    ensures var m := |ops| - 1; ChainOver(h, anchor, folded, ops)[..m] == ChainOver(h, anchor, folded, ops[..m])
  {
    hide Link;
  }

  lemma {:induction false} ChainPrefix(h: Hasher, anchor: string, folded: nat, ops: seq<Op>, n: nat)
    requires n <= |ops|
    ensures ChainOver(h, anchor, folded, ops[..n]) == ChainOver(h, anchor, folded, ops)[..n]
    decreases |ops|
  {
    hide ChainOver;
    if n == |ops| {
      assert ops[..n] == ops;
    } else {
      var m := |ops| - 1;
      ChainPrefix(h, anchor, folded, ops[..m], n);
      ChainLast(h, anchor, folded, ops);
      assert ops[..m][..n] == ops[..n];
      assert ChainOver(h, anchor, folded, ops)[..m][..n] == ChainOver(h, anchor, folded, ops)[..n];
    }
  }

  lemma LinkAt(h: Hasher, anchor: string, folded: nat, ops: seq<Op>, i: nat)
    requires i < |ops|
    ensures ChainOver(h, anchor, folded, ops)[i] == h.sha(LinkInput(h, anchor, folded, ops, i))
  {
    hide ChainOver, Preimage, Head;
    ChainPrefix(h, anchor, folded, ops, i + 1);
    assert ops[..i + 1][..i] == ops[..i];
    LastLink(h, anchor, folded, ops[..i + 1]);
  }

  lemma LastLink(h: Hasher, anchor: string, folded: nat, ops: seq<Op>)
    requires ops != []
    ensures var n := |ops| - 1;
            ChainOver(h, anchor, folded, ops)[n]
            == Link(h, Head(anchor, ChainOver(h, anchor, folded, ops[..n])), folded + n, ops[n])
  {
    hide Link, Head;
  }

  lemma HeadHasNoBar(h: Hasher, anchor: string, folded: nat, ops: seq<Op>)
    requires Lawful(h) && '|' !in anchor
    ensures '|' !in Head(anchor, ChainOver(h, anchor, folded, ops))
  {
  }

  lemma InputTells(h: Hasher, anchor: string, folded: nat, a: seq<Op>, i: nat, b: seq<Op>, j: nat)
    requires Lawful(h) && '|' !in anchor && i < |a| && j < |b|
    requires LinkInput(h, anchor, folded, a, i) == LinkInput(h, anchor, folded, b, j)
    ensures i == j && a[i] == b[j]
    ensures Head(anchor, ChainOver(h, anchor, folded, a[..i])) == Head(anchor, ChainOver(h, anchor, folded, b[..j]))
  {
    hide ChainOver, Preimage, Lawful;
    HeadHasNoBar(h, anchor, folded, a[..i]);
    HeadHasNoBar(h, anchor, folded, b[..j]);
    var p, q := Head(anchor, ChainOver(h, anchor, folded, a[..i])), Head(anchor, ChainOver(h, anchor, folded, b[..j]));
    PreimageTells(h, p, folded + i, a[i], q, folded + j, b[j]);
  }

  /** A link binds everything before it: equal links at one position mean equal ops up to there, or
      an explicit collision between two of the texts these two chains hashed. */
  lemma {:induction false} LinkBinds(h: Hasher, anchor: string, folded: nat, a: seq<Op>, b: seq<Op>, n: nat)
    requires Lawful(h) && '|' !in anchor && n <= |a| && n <= |b|
    requires n > 0 ==> ChainOver(h, anchor, folded, a)[n - 1] == ChainOver(h, anchor, folded, b)[n - 1]
    ensures a[..n] == b[..n] || exists i :: 0 <= i < n && CollideAt(h, anchor, folded, a, b, i)
    decreases n
  {
    hide ChainOver, LinkInput, Lawful;
    if n == 0 {
    } else {
      var i := n - 1;
      LinkAt(h, anchor, folded, a, i);
      LinkAt(h, anchor, folded, b, i);
      if LinkInput(h, anchor, folded, a, i) != LinkInput(h, anchor, folded, b, i) {
        assert CollideAt(h, anchor, folded, a, b, i);
      } else {
        InputTells(h, anchor, folded, a, i, b, i);
        ChainPrefix(h, anchor, folded, a, i);
        ChainPrefix(h, anchor, folded, b, i);
        LinkBinds(h, anchor, folded, a, b, i);
        assert a[..n] == a[..i] + [a[i]] && b[..n] == b[..i] + [b[i]];
      }
    }
  }

  /** Two timelines from genesis with one head recorded the same ops, or two texts they hashed collide. */
  lemma HeadBinds(h: Hasher, a: seq<Op>, b: seq<Op>)
    requires Lawful(h)
    requires Head(GENESIS, ChainOver(h, GENESIS, 0, a)) == Head(GENESIS, ChainOver(h, GENESIS, 0, b))
    ensures a == b || exists i, j :: CollideBetween(h, a, i, b, j)
  {
    hide ChainOver, LinkInput, Lawful, Collide;
    if a == [] || b == [] {
      HeadIsNotGenesis(h, a);
      HeadIsNotGenesis(h, b);
    } else if |a| == |b| {
      SameLengthBinds(h, a, b);
    } else {
      GenesisHasNoBar();
      UnequalStepsCollide(h, GENESIS, a, |a| - 1, b, |b| - 1);
      assert CollideBetween(h, a, |a| - 1, b, |b| - 1);
    }
  }

  /** Texts hashed by two timelines from genesis, different but with one digest. */
  ghost predicate CollideBetween(h: Hasher, a: seq<Op>, i: int, b: seq<Op>, j: int)
  {
    && 0 <= i < |a| && 0 <= j < |b|
    && Collide(h, LinkInput(h, GENESIS, 0, a, i), LinkInput(h, GENESIS, 0, b, j))
  }

  lemma SameLengthBinds(h: Hasher, a: seq<Op>, b: seq<Op>)
    requires Lawful(h) && |a| == |b| && a != []
    requires Head(GENESIS, ChainOver(h, GENESIS, 0, a)) == Head(GENESIS, ChainOver(h, GENESIS, 0, b))
    ensures a == b || exists i, j :: CollideBetween(h, a, i, b, j)
  {
    hide ChainOver, LinkInput, Lawful, Collide;
    var n := |a|;
    LinkBinds(h, GENESIS, 0, a, b, n);
    if a[..n] == b[..n] {
      assert a == a[..n] && b == b[..n];
    } else {
      var i :| 0 <= i < n && CollideAt(h, GENESIS, 0, a, b, i);
      assert CollideBetween(h, a, i, b, i);
    }
  }

  lemma HeadIsNotGenesis(h: Hasher, a: seq<Op>)
    requires Lawful(h)
    ensures Head(GENESIS, ChainOver(h, GENESIS, 0, a)) == GENESIS <==> a == []
  {
    hide LinkInput;
    if a != [] {
      LinkAt(h, GENESIS, 0, a, |a| - 1);
    }
    assert |GENESIS| == 7;
  }

  lemma GenesisHasNoBar()
    ensures '|' !in GENESIS
  {
  }

  lemma StepTells(h: Hasher, anchor: string, folded: nat, a: seq<Op>, i: nat, b: seq<Op>, j: nat)
    requires Lawful(h) && '|' !in anchor && i < |a| && j < |b| && i != j
    ensures LinkInput(h, anchor, folded, a, i) != LinkInput(h, anchor, folded, b, j)
  {
    hide ChainOver, LinkInput, Lawful, Head;
    if LinkInput(h, anchor, folded, a, i) == LinkInput(h, anchor, folded, b, j) {
      InputTells(h, anchor, folded, a, i, b, j);
    }
  }

  /** Equal links at different steps hash different texts. */
  lemma UnequalStepsCollide(h: Hasher, anchor: string, a: seq<Op>, i: nat, b: seq<Op>, j: nat)
    requires Lawful(h) && '|' !in anchor && i < |a| && j < |b| && i != j
    requires ChainOver(h, anchor, 0, a)[i] == ChainOver(h, anchor, 0, b)[j]
    ensures Collide(h, LinkInput(h, anchor, 0, a, i), LinkInput(h, anchor, 0, b, j))
  {
    hide ChainOver, LinkInput, Lawful, Head;
    LinkAt(h, anchor, 0, a, i);
    LinkAt(h, anchor, 0, b, j);
    StepTells(h, anchor, 0, a, i, b, j);
  }

  /** A recorded op cannot be edited, reordered, inserted or removed under its chain: other ops verify
      against the same chain only if two of the texts hashed collide. */
  lemma TamperEvident(h: Hasher, anchor: string, folded: nat, ops: seq<Op>, mutated: seq<Op>)
    requires Lawful(h) && '|' !in anchor && mutated != ops
    ensures || ChainOver(h, anchor, folded, mutated) != ChainOver(h, anchor, folded, ops)
            || (|mutated| == |ops| && exists i :: 0 <= i < |ops| && CollideAt(h, anchor, folded, ops, mutated, i))
  {
    hide ChainOver, Lawful, CollideAt;
    var n := |ops|;
    if |mutated| == n {
      if ChainOver(h, anchor, folded, mutated) == ChainOver(h, anchor, folded, ops) {
        LinkBinds(h, anchor, folded, ops, mutated, n);
        assert ops[..n] == ops && mutated[..n] == mutated;
      }
    }
  }
}
