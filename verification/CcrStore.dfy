/** The compressor's store of originals: what a window's references retrieve, what eviction spares,
    and which items near-duplicate suppression replaces. */
module CcrStore {
  import opened Options
  import opened Names

  datatype Route = Json | Code | Prose

  datatype Algorithm = Crusher | Ast | Summ | Passthrough | Dedup

  /** The text heuristics, as functions: the reference of a content, its size in bytes, its route, the
      three compressors, and the estimated similarity of two compressed forms. */
  datatype Codec = Codec(
    refOf: string -> string,
    byteLength: string -> nat,
    classify: (string, string) -> Route,
    crush: string -> string,
    skeletonize: string -> string,
    summarize: (string, real) -> string,
    similarity: (string, string) -> real
  )

  datatype Config = Config(
    enableJson: bool,
    enableCode: bool,
    enableProse: bool,
    capacity: nat,
    minChars: nat,
    enableDedup: bool,
    dedupThreshold: real
  )

  datatype Item = Item(kind: string, score: real, uri: string, content: string)

  datatype Stat = Stat(algorithm: Algorithm, tokensBefore: nat, tokensAfter: nat, ratio: real)

  datatype CompressedItem = CompressedItem(content: string, ccrRef: Option<string>)

  function Tokens(s: string): nat
  {
    |s| / 4
  }

  function StatOf(algorithm: Algorithm, before: nat, after: nat): Stat
  {
    Stat(algorithm, before, after, if before == 0 then 1.0 else after as real / before as real)
  }

  /** The compressed form of an item, and whether its original is stored. */
  function Compressed(codec: Codec, config: Config, item: Item): (string, bool, Algorithm)
  {
    var content := item.content;
    if codec.byteLength(content) < config.minChars then (content, false, Passthrough)
    else
      match codec.classify(item.kind, content)
      case Json => if config.enableJson then (codec.crush(content), true, Crusher) else (content, false, Passthrough)
      case Code => if config.enableCode then (codec.skeletonize(content), true, Ast) else (content, false, Passthrough)
      case Prose =>
        var c := codec.summarize(content, item.score);
        if config.enableProse && codec.byteLength(c) < codec.byteLength(content) then (c, true, Summ)
        else (content, false, Passthrough)
  }

  function RefOf(codec: Codec, config: Config, item: Item): Option<string>
  {
    if Compressed(codec, config, item).1 then Some(codec.refOf(item.content)) else None
  }

  /** Storing the originals of the items in order: a later one under the same reference wins. */
  function Stored(codec: Codec, config: Config, ccr: map<string, string>, items: seq<Item>): map<string, string>
  {
    if items == [] then ccr
    else
      var last := items[|items| - 1];
      var m := Stored(codec, config, ccr, items[..|items| - 1]);
      match RefOf(codec, config, last)
      case Some(r) => m[r := last.content]
      case None => m
  }

  function RefsOf(codec: Codec, config: Config, items: seq<Item>): set<string>
  {
    set i | 0 <= i < |items| && RefOf(codec, config, items[i]).Some? :: RefOf(codec, config, items[i]).value
  }

  /** Which way an item goes: small items, and kinds that are switched off, pass through unstored; JSON is
      crushed, code skeletonised and prose summarised if that makes it shorter, and then the original is
      stored under its reference. */
  lemma RouteTaken(codec: Codec, config: Config, item: Item)
    ensures var (form, _, algorithm) := Compressed(codec, config, item);
            var route := codec.classify(item.kind, item.content);
            var summary := codec.summarize(item.content, item.score);
            var small := codec.byteLength(item.content) < config.minChars;
            && (RefOf(codec, config, item).None? <==> algorithm == Passthrough)
            && (RefOf(codec, config, item).None? ==> form == item.content)
            && (RefOf(codec, config, item).Some? ==> RefOf(codec, config, item).value == codec.refOf(item.content))
            && (algorithm == Crusher <==> !small && route == Json && config.enableJson)
            && (algorithm == Crusher ==> form == codec.crush(item.content))
            && (algorithm == Ast <==> !small && route == Code && config.enableCode)
            && (algorithm == Ast ==> form == codec.skeletonize(item.content))
            && (algorithm == Summ <==> !small && route == Prose && config.enableProse
                                       && codec.byteLength(summary) < codec.byteLength(item.content))
            && (algorithm == Summ ==> form == summary)
            && algorithm != Dedup
  {
  }

  /** Four characters a token, rounded down; the ratio scales the tokens before to those after. */
  lemma StatsMeasure(algorithm: Algorithm, s: string, t: string)
    ensures 4 * Tokens(s) <= |s| < 4 * Tokens(s) + 4
    ensures var stat := StatOf(algorithm, Tokens(s), Tokens(t));
            && stat.algorithm == algorithm && stat.tokensBefore == Tokens(s) && stat.tokensAfter == Tokens(t)
            && (Tokens(s) > 0 ==> stat.ratio * Tokens(s) as real == Tokens(t) as real)
            && (Tokens(s) == 0 ==> stat.ratio == 1.0)
  {
  }

  // ----- suppression -----

  predicate Similar(codec: Codec, config: Config, forms: seq<string>, i: nat, j: nat)
    requires i < |forms| && j < |forms|
  {
    codec.similarity(forms[i], forms[j]) >= config.dedupThreshold
  }

  /** Position `i` is decided: it leads when no earlier leader is similar, and otherwise follows the
      first one that is. So followers point at leaders, never at followers. */
  ghost predicate Decided(codec: Codec, config: Config, forms: seq<string>, dupOf: seq<Option<nat>>, i: nat)
    requires |dupOf| == |forms| && i < |forms|
  {
    match dupOf[i]
    case None => forall j | 0 <= j < i && dupOf[j].None? :: !Similar(codec, config, forms, i, j)
    case Some(j) =>
      && j < i && dupOf[j].None? && Similar(codec, config, forms, i, j)
      && forall k | 0 <= k < j && dupOf[k].None? :: !Similar(codec, config, forms, i, k)
  }

  ghost predicate Suppression(codec: Codec, config: Config, forms: seq<string>, dupOf: seq<Option<nat>>)
  {
    && |dupOf| == |forms|
    && if config.enableDedup && |forms| > 1 then forall i | 0 <= i < |forms| :: Decided(codec, config, forms, dupOf, i)
       else forall i | 0 <= i < |forms| :: dupOf[i].None?
  }

  /** There is one way to suppress. */
  lemma {:induction false} SuppressionUnique(codec: Codec, config: Config, forms: seq<string>,
                                             a: seq<Option<nat>>, b: seq<Option<nat>>, n: nat)
    requires Suppression(codec, config, forms, a) && Suppression(codec, config, forms, b) && n <= |forms|
    ensures a[..n] == b[..n]
  {
    hide Similar;
    if n == 0 {
    } else {
      var i := n - 1;
      SuppressionUnique(codec, config, forms, a, b, i);
      assert forall j | 0 <= j < i :: a[j] == a[..i][j] && b[j] == b[..i][j];
      if config.enableDedup && |forms| > 1 {
        assert Decided(codec, config, forms, a, i) && Decided(codec, config, forms, b, i);
        if a[i].Some? && b[i].Some? {
          assert a[i].value == b[i].value;
        }
      }
      assert a[i] == b[i];
      assert a[..n] == a[..i] + [a[i]] && b[..n] == b[..i] + [b[i]];
    }
  }

  /** What suppression decides: leaders are pairwise below the threshold; every other item points to an
      earlier leader at or above it, the first there is. */
  lemma LeadersApart(codec: Codec, config: Config, forms: seq<string>, dupOf: seq<Option<nat>>, i: nat)
    requires Suppression(codec, config, forms, dupOf) && i < |forms|
    ensures |dupOf| == |forms| && (!config.enableDedup ==> dupOf[i].None?)
    ensures dupOf[i].None? && config.enableDedup ==>
              forall j | 0 <= j < i && dupOf[j].None? :: codec.similarity(forms[i], forms[j]) < config.dedupThreshold
    ensures dupOf[i].Some? ==>
              var j := dupOf[i].value;
              && j < i && dupOf[j].None? && codec.similarity(forms[i], forms[j]) >= config.dedupThreshold
              && forall k | 0 <= k < j && dupOf[k].None? ::
                   codec.similarity(forms[i], forms[k]) < config.dedupThreshold
  {
    if config.enableDedup && |forms| > 1 {
      assert Decided(codec, config, forms, dupOf, i);
    }
  }

  const PLACEHOLDER := "// ~dup of "

  function Forms(codec: Codec, config: Config, items: seq<Item>): (forms: seq<string>)
    ensures |forms| == |items|
  {
    seq(|items|, i requires 0 <= i < |items| => Compressed(codec, config, items[i]).0)
  }

  /** What is handed back for an item: the compressed form, or a note of the leader; the reference is
      kept either way. */
  function Output(codec: Codec, config: Config, items: seq<Item>, dupOf: seq<Option<nat>>, i: nat): CompressedItem
    requires i < |items| == |dupOf| && (dupOf[i].Some? ==> dupOf[i].value < |items|)
  {
    CompressedItem(
      if dupOf[i].Some? then PLACEHOLDER + items[dupOf[i].value].uri else Compressed(codec, config, items[i]).0,
                   RefOf(codec, config, items[i]))
  }

  // ----- eviction -----

  /** Kept references stay, others go from the lowest, and nothing is rewritten. */
  ghost predicate Spared(before: map<string, string>, after: map<string, string>, keep: set<string>)
  {
    && (forall k | k in after :: k in before && after[k] == before[k])
    && (forall k | k in before && k in keep :: k in after)
    && (forall x, y | x in before && x !in after && y in after && y !in keep :: Before(x, y))
  }

  /** Eviction spares the kept references and drops no more than needed, until the capacity is met or
      nothing else is left. */
  ghost predicate Evicted(before: map<string, string>, after: map<string, string>, keep: set<string>, capacity: nat)
  {
    && Spared(before, after, keep)
    && if capacity == 0 || |before| <= capacity then after == before
       else |after| == capacity || (|after| > capacity && after.Keys <= keep)
  }

  class CausalCompressor {
    const codec: Codec
    const config: Config
    var ccr: map<string, string>
    var lastStats: seq<Stat>

    constructor (codec: Codec, config: Config)
      ensures this.codec == codec && this.config == config && ccr == map[] && lastStats == []
    {
      this.codec, this.config := codec, config;
      ccr, lastStats := map[], [];
    }

    function Retrieve(ccrRef: string): Option<string>
      reads this
    {
      if ccrRef in ccr then Some(ccr[ccrRef]) else None
    }

    method Store(original: string) returns (r: string)
      modifies this`ccr
      ensures r == codec.refOf(original) && ccr == old(ccr)[r := original]
    {
      r := codec.refOf(original);
      ccr := ccr[r := original];
    }

    /** Route, compress and store the original, without enforcing the capacity. */
    method CompressItemInner(item: Item) returns (content: string, ccrRef: Option<string>, stat: Stat)
      modifies this`ccr
      ensures content == Compressed(codec, config, item).0 && ccrRef == RefOf(codec, config, item)
      ensures ccr == if ccrRef.Some? then old(ccr)[ccrRef.value := item.content] else old(ccr)
      ensures stat == StatOf(Compressed(codec, config, item).2, Tokens(item.content), Tokens(content))
    {
      var before := Tokens(item.content);
      content, ccrRef := item.content, None;
      if codec.byteLength(item.content) < config.minChars {
        NoGain(before);
        return item.content, None, Stat(Passthrough, before, before, 1.0);
      }
      var algorithm := Passthrough;
      match codec.classify(item.kind, item.content) {
        case Json =>
          if config.enableJson {
            content, algorithm := codec.crush(item.content), Crusher;
            var r := Store(item.content);
            ccrRef := Some(r);
          }
        case Code =>
          if config.enableCode {
            content, algorithm := codec.skeletonize(item.content), Ast;
            var r := Store(item.content);
            ccrRef := Some(r);
          }
        case Prose =>
          if config.enableProse {
            var c := codec.summarize(item.content, item.score);
            if codec.byteLength(c) < codec.byteLength(item.content) {
              content, algorithm := c, Summ;
              var r := Store(item.content);
              ccrRef := Some(r);
            }
          }
      }
      stat := StatOf(algorithm, before, Tokens(content));
    }

    lemma NoGain(before: nat)
      ensures StatOf(Passthrough, before, before) == Stat(Passthrough, before, before, 1.0)
    {
    }

    method EnforceCapacity(keep: set<string>)
      modifies this`ccr
      ensures Evicted(old(ccr), ccr, keep, config.capacity)
    {
      hide Spared;
      SparedAll(ccr, keep);
      var capacity := config.capacity;
      if capacity == 0 {
        return;
      }
      while |ccr| > capacity
        invariant Spared(old(ccr), ccr, keep)
        invariant if |old(ccr)| <= capacity then ccr == old(ccr) else |ccr| >= capacity
        decreases |ccr|
      {
        var candidates := ccr.Keys - keep;
        if candidates == {} {
          assert ccr.Keys <= keep by {
            assert forall k | k in ccr.Keys && k !in keep :: k in candidates;
          }
          break;
        }
        var victim := First(candidates);
        EvictOne(old(ccr), ccr, keep, victim);
        ccr := ccr - {victim};
      }
    }

    /** One item on its own: its reference survives its own eviction pass. */
    method CompressItem(item: Item) returns (content: string, ccrRef: Option<string>, stat: Stat)
      modifies this`ccr
      ensures content == Compressed(codec, config, item).0 && ccrRef == RefOf(codec, config, item)
      ensures ccrRef.None? ==> ccr == old(ccr)
      ensures ccrRef.Some? ==>
                && Evicted(old(ccr)[ccrRef.value := item.content], ccr, {ccrRef.value}, config.capacity)
                && Retrieve(ccrRef.value) == Some(item.content)
    {
      hide Compressed, Before;
      content, ccrRef, stat := CompressItemInner(item);
      if ccrRef.Some? {
        EnforceCapacity({ccrRef.value});
      }
    }

    /** A whole window: compress each item, suppress near-duplicates, then enforce the capacity once,
        sparing every reference handed back. */
    method CompressWindow(items: seq<Item>) returns (out: seq<CompressedItem>, ghost dupOf: seq<Option<nat>>)
      modifies this
      ensures |out| == |items| == |lastStats|
      ensures Suppression(codec, config, Forms(codec, config, items), dupOf)
      ensures forall i | 0 <= i < |items| ::
                && (dupOf[i].Some? ==> dupOf[i].value < i)
                && out[i] == Output(codec, config, items, dupOf, i)
                && lastStats[i] == StatOf(if dupOf[i].Some? then Dedup else Compressed(codec, config, items[i]).2,
                                          Tokens(items[i].content), Tokens(out[i].content))
      ensures Evicted(Stored(codec, config, old(ccr), items), ccr, RefsOf(codec, config, items), config.capacity)
    {
      hide Compressed, Evicted, Suppression, RefsOf, RefOf, StatOf, Tokens, Output, Stored;
      var contents, refs, stats := CompressAll(items);
      var dups := Leaders(contents);
      dupOf := dups;
      NoChains(contents, dups);
      out, lastStats := [], [];
      for i := 0 to |items|
        invariant |out| == |lastStats| == i && ccr == Stored(codec, config, old(ccr), items)
        invariant forall k | 0 <= k < i ::
                    && out[k] == Output(codec, config, items, dupOf, k)
                    && lastStats[k] == StatOf(if dupOf[k].Some? then Dedup else Compressed(codec, config, items[k]).2,
                                              Tokens(items[k].content), Tokens(out[k].content))
      {
        var content, stat := contents[i], stats[i];
        if dups[i].Some? {
          content := PLACEHOLDER + items[dups[i].value].uri;
          StatKeeps(Compressed(codec, config, items[i]).2, Tokens(items[i].content), Tokens(contents[i]));
          stat := StatOf(Dedup, stat.tokensBefore, Tokens(content));
        }
        OutputIs(items, dupOf, i);
        out, lastStats := out + [CompressedItem(content, refs[i])], lastStats + [stat];
      }
      forall i | 0 <= i < |items|
        ensures out[i].ccrRef == RefOf(codec, config, items[i])
      {
        OutputIs(items, dupOf, i);
      }
      var keep := set i | 0 <= i < |out| && out[i].ccrRef.Some? :: out[i].ccrRef.value;
      SameRefs(items, out, keep);
      EnforceCapacity(keep);
    }

    lemma OutputIs(items: seq<Item>, dupOf: seq<Option<nat>>, i: nat)
      requires i < |items| == |dupOf| && (dupOf[i].Some? ==> dupOf[i].value < |items|)
      ensures Output(codec, config, items, dupOf, i)
              == CompressedItem(
                if dupOf[i].Some? then PLACEHOLDER + items[dupOf[i].value].uri
                else Compressed(codec, config, items[i]).0,
                                RefOf(codec, config, items[i]))
    {
    }

    /** The first phase: compress and store every item, in order. */
    method CompressAll(items: seq<Item>) returns (contents: seq<string>, refs: seq<Option<string>>, stats: seq<Stat>)
      modifies this`ccr
      ensures contents == Forms(codec, config, items) && |refs| == |stats| == |items|
      ensures forall i | 0 <= i < |items| ::
                && refs[i] == RefOf(codec, config, items[i])
                && stats[i] == StatOf(Compressed(codec, config, items[i]).2, Tokens(items[i].content),
                    Tokens(contents[i]))
      ensures ccr == Stored(codec, config, old(ccr), items)
    {
      hide Compressed, RefOf, StatOf, Tokens;
      contents, refs, stats := [], [], [];
      for k := 0 to |items|
        invariant |contents| == |refs| == |stats| == k
        invariant forall i | 0 <= i < k ::
                    && contents[i] == Compressed(codec, config, items[i]).0 && refs[i] == RefOf(codec, config, items[i])
                    && stats[i] == StatOf(Compressed(codec, config, items[i]).2, Tokens(items[i].content),
                        Tokens(contents[i]))
        invariant ccr == Stored(codec, config, old(ccr), items[..k])
      {
        assert items[..k + 1][..k] == items[..k];
        var content, ccrRef, stat := CompressItemInner(items[k]);
        contents, refs, stats := contents + [content], refs + [ccrRef], stats + [stat];
      }
      assert items[..|items|] == items;
    }

    lemma StatKeeps(algorithm: Algorithm, before: nat, after: nat)
      ensures StatOf(algorithm, before, after).tokensBefore == before
    {
    }

    lemma SameRefs(items: seq<Item>, out: seq<CompressedItem>, keep: set<string>)
      requires |out| == |items| && forall i | 0 <= i < |items| :: out[i].ccrRef == RefOf(codec, config, items[i])
      requires keep == set i | 0 <= i < |out| && out[i].ccrRef.Some? :: out[i].ccrRef.value
      ensures keep == RefsOf(codec, config, items)
    {
      hide RefOf;
      forall r
        ensures r in keep <==> r in RefsOf(codec, config, items)
      {
        if r in keep {
          var i :| 0 <= i < |out| && out[i].ccrRef.Some? && out[i].ccrRef.value == r;
          assert RefOf(codec, config, items[i]) == Some(r);
        }
        if r in RefsOf(codec, config, items) {
          var i :| 0 <= i < |items| && RefOf(codec, config, items[i]).Some?
              && RefOf(codec, config, items[i]).value == r;
          assert out[i].ccrRef == Some(r);
        }
      }
    }

    lemma NoChains(forms: seq<string>, dupOf: seq<Option<nat>>)
      requires Suppression(codec, config, forms, dupOf)
      ensures |dupOf| == |forms| && forall i | 0 <= i < |forms| && dupOf[i].Some? :: dupOf[i].value < i
    {
      hide Similar;
      forall i | 0 <= i < |forms| && dupOf[i].Some?
        ensures dupOf[i].value < i
      {
        assert Decided(codec, config, forms, dupOf, i);
      }
    }

    /** The greedy pass: each item against the leaders before it. */
    method Leaders(forms: seq<string>) returns (dupOf: seq<Option<nat>>)
      ensures Suppression(codec, config, forms, dupOf)
    {
      hide Similar;
      dupOf := seq(|forms|, _ => None);
      if config.enableDedup && |forms| > 1 {
        for i := 0 to |forms|
          invariant |dupOf| == |forms|
          invariant forall k | i <= k < |forms| :: dupOf[k].None?
          invariant forall k | 0 <= k < i :: Decided(codec, config, forms, dupOf, k)
        {
          ghost var before := dupOf;
          var leader: Option<nat> := None;
          for j := 0 to i
            invariant leader.None? && dupOf == before
            invariant forall k | 0 <= k < j && dupOf[k].None? :: !Similar(codec, config, forms, i, k)
          {
            if dupOf[j].Some? {
              continue;
            }
            if Similar(codec, config, forms, i, j) {
              leader := Some(j);
              break;
            }
          }
          dupOf := dupOf[i := leader];
          forall k | 0 <= k < i
            ensures Decided(codec, config, forms, dupOf, k)
          {
            assert Decided(codec, config, forms, before, k);
          }
        }
      }
    }
  }

  lemma SparedAll(m: map<string, string>, keep: set<string>)
    ensures Spared(m, m, keep)
  {
  }

  lemma EvictOne(before: map<string, string>, now: map<string, string>, keep: set<string>, victim: string)
    requires Spared(before, now, keep) && IsFirst(now.Keys - keep, victim)
    ensures |now - {victim}| == |now| - 1
    ensures Spared(before, now - {victim}, keep)
  {
    hide Before;
    var after := now - {victim};
    assert after.Keys == now.Keys - {victim};
    assert |after.Keys| == |now.Keys| - 1;
    forall x, y | x in before && x !in after && y in after && y !in keep
      ensures Before(x, y)
    {
      if x != victim {
        assert x !in now;
      }
    }
  }

  // ----- what a reference retrieves -----

  /** The last item of the window stored under a reference. */
  function LastWith(codec: Codec, config: Config, items: seq<Item>, r: string): (k: nat)
    requires r in RefsOf(codec, config, items)
    ensures k < |items| && RefOf(codec, config, items[k]) == Some(r)
    ensures forall l | k < l < |items| :: RefOf(codec, config, items[l]) != Some(r)
  {
    var n := |items| - 1;
    if RefOf(codec, config, items[n]) == Some(r) then n
    else
      assert forall i | 0 <= i < n :: items[..n][i] == items[i];
      LastWith(codec, config, items[..n], r)
  }

  lemma {:induction false} StoredLast(codec: Codec, config: Config, ccr: map<string, string>, items: seq<Item>,
                                      r: string)
    requires r in RefsOf(codec, config, items)
    ensures r in Stored(codec, config, ccr, items)
    ensures Stored(codec, config, ccr, items)[r] == items[LastWith(codec, config, items, r)].content
  {
    hide RefOf;
    var n := |items| - 1;
    if RefOf(codec, config, items[n]) != Some(r) {
      assert forall i | 0 <= i < n :: items[..n][i] == items[i];
      StoredLast(codec, config, ccr, items[..n], r);
    }
  }

  /** Storing a window leaves what is stored under other references. */
  lemma {:induction false} StoredElse(codec: Codec, config: Config, ccr: map<string, string>, items: seq<Item>,
                                      r: string)
    requires r !in RefsOf(codec, config, items)
    ensures r in Stored(codec, config, ccr, items) <==> r in ccr
    ensures r in ccr ==> Stored(codec, config, ccr, items)[r] == ccr[r]
  {
    hide RefOf;
    if items == [] {
    } else {
      var n := |items| - 1;
      assert forall i | 0 <= i < n :: items[..n][i] == items[i];
      assert RefOf(codec, config, items[n]) != Some(r);
      StoredElse(codec, config, ccr, items[..n], r);
    }
  }

  /** After a window, every reference handed back retrieves the last original stored under it, whatever
      the capacity. So it retrieves its own exactly when no later item of the window has the same
      reference and other content. */
  lemma RefsRetrieve(codec: Codec, config: Config, ccr: map<string, string>, items: seq<Item>,
                     after: map<string, string>, i: nat)
    requires Evicted(Stored(codec, config, ccr, items), after, RefsOf(codec, config, items), config.capacity)
    requires i < |items| && RefOf(codec, config, items[i]).Some?
    ensures var r := RefOf(codec, config, items[i]).value;
            && r in after
            && (after[r] == items[i].content <==> items[LastWith(codec, config, items, r)].content == items[i].content)
            && ((forall k | i < k < |items| && RefOf(codec, config, items[k]) == Some(r) ::
                items[k].content == items[i].content)
                ==> after[r] == items[i].content)
  {
    hide RefOf, Stored, Before;
    var r := RefOf(codec, config, items[i]).value;
    assert r in RefsOf(codec, config, items);
    StoredLast(codec, config, ccr, items, r);
    var k := LastWith(codec, config, items, r);
  }

  /** And the store then meets a nonzero capacity or holds this window's references and nothing else. */
  lemma CapacityMet(codec: Codec, config: Config, ccr: map<string, string>, items: seq<Item>,
                    after: map<string, string>)
    requires Evicted(Stored(codec, config, ccr, items), after, RefsOf(codec, config, items), config.capacity)
    ensures config.capacity == 0 || |after| <= config.capacity || after.Keys == RefsOf(codec, config, items)
  {
    hide RefOf, Before, LastWith;
    forall r | r in RefsOf(codec, config, items)
      ensures r in Stored(codec, config, ccr, items)
    {
      StoredLast(codec, config, ccr, items, r);
    }
  }

  /** An item's original can be had back: it is the content itself, or its reference retrieves it. */
  predicate Recoverable(item: Item, out: CompressedItem, ccr: map<string, string>)
  {
    out.content == item.content
        || (out.ccrRef.Some? && out.ccrRef.value in ccr && ccr[out.ccrRef.value] == item.content)
  }

  /** With no two contents of the window under one reference, everything is recoverable except a
      suppressed item that was too small, or of a kind too plain, to be stored: that one is lost, unless
      it happens to read like the note put in its place. */
  lemma LostExactly(codec: Codec, config: Config, ccr: map<string, string>, items: seq<Item>,
                    after: map<string, string>,
                    dupOf: seq<Option<nat>>, i: nat)
    requires Evicted(Stored(codec, config, ccr, items), after, RefsOf(codec, config, items), config.capacity)
    requires i < |items| == |dupOf| && (dupOf[i].Some? ==> dupOf[i].value < |items|)
    requires forall j, k | 0 <= j < |items| && 0 <= k < |items|
        && codec.refOf(items[j].content) == codec.refOf(items[k].content) ::
               items[j].content == items[k].content
    ensures Recoverable(items[i], Output(codec, config, items, dupOf, i), after) <==>
              || RefOf(codec, config, items[i]).Some?
              || dupOf[i].None?
              || items[i].content == PLACEHOLDER + items[dupOf[i].value].uri
  {
    hide Stored, Before, Evicted, LastWith;
    if RefOf(codec, config, items[i]).Some? {
      RefsRetrieve(codec, config, ccr, items, after, i);
    } else {
      Unstored(codec, config, items[i]);
    }
  }

  lemma Unstored(codec: Codec, config: Config, item: Item)
    ensures !Compressed(codec, config, item).1 ==> Compressed(codec, config, item).0 == item.content
  {
  }
}
