/** The layered store: a memtable, immutable segments oldest to newest, and a read cache. */
module ColdStore {
  import opened Bytes
  import opened Options
  import opened OrderedMap
  import opened SegmentFormat
  import opened SegmentFile
  import opened LruCache
  import opened HuskLayers

  /** A directory of segment files, named by sequence number. `history` lists every state it has been
      in, so that what a crash can leave behind can be talked about. */
  class Disk {
    var files: Files
    ghost var history: seq<Files>

    /** The history ends with the files as they are. */
    ghost predicate Current()
      reads this
    {
      history != [] && history[|history| - 1] == files
    }

    constructor ()
      ensures files == map[] && history == [map[]]
    {
      files := map[];
      history := [map[]];
    }

    /** An atomic durable write. */
    method Write(path: nat, data: Bytes)
      modifies this
      ensures files == old(files)[path := data]
      ensures history == old(history) + [files]
    {
      files := files[path := data];
      history := history + [files];
    }

    method Remove(path: nat)
      modifies this
      ensures files == old(files) - {path}
      ensures history == old(history) + [files]
    {
      files := files - {path};
      history := history + [files];
    }
  }

  /** Every state in `history` from index `from` on recovers to `m`. */
  ghost predicate RecoversTo(history: seq<Files>, from: nat, m: map<Bytes, Bytes>)
  {
    forall i | from <= i < |history| :: GoodDisk(history[i]) && Recovered(history[i]) == m
  }

  /** How many records a segment may have for its index count and its offsets to be sure to fit. */
  const MAX_RECORDS: nat := 0x4000_0000

  ghost predicate SlotFits(k: Bytes, slot: Slot)
  {
    |k| < U32_LIMIT && |EncodeValue(slot)| < U32_LIMIT
  }

  ghost predicate AllFit(s: Entries<Slot>)
  {
    |s| <= MAX_RECORDS && forall e | e in s :: SlotFits(e.0, e.1)
  }

  function EncodeSlots(s: Entries<Slot>): (recs: seq<Record>)
    ensures |recs| == |s|
    ensures forall i | 0 <= i < |s| :: recs[i] == (s[i].0, EncodeValue(s[i].1))
  {
    seq(|s|, i requires 0 <= i < |s| => (s[i].0, EncodeValue(s[i].1)))
  }

  /** The memtable of a batch of live values. */
  function AsSlots(s: Entries<Bytes>): (slots: Entries<Slot>)
    ensures |slots| == |s|
    ensures forall i | 0 <= i < |s| :: slots[i] == (s[i].0, Some(s[i].1))
  {
    seq(|s|, i requires 0 <= i < |s| => (s[i].0, Some(s[i].1)))
  }

  /** The live entries of a merge, in order. */
  function LiveSlots(s: Entries<Slot>): Entries<Bytes>
  {
    if s == [] then []
    else
      (match s[0].1 case Some(v) => [(s[0].0, v)] case None => []) + LiveSlots(s[1..])
  }

  lemma {:induction false} BodyBound(recs: seq<Record>)
    requires forall i | 0 <= i < |recs| :: |recs[i].0| < U32_LIMIT && |recs[i].1| < U32_LIMIT
    ensures |Body(recs)| <= |recs| * 0x2_0000_0008
  {
    if recs == [] {
    } else {
      BodyBound(recs[..|recs| - 1]);
    }
  }

  /** Encoding a memtable gives records a segment can hold, and that segment's layer is the memtable. */
  lemma EncodedSlots(s: Entries<Slot>)
    requires Ascending(s) && AllFit(s)
    ensures var recs := EncodeSlots(s);
            && Fits(recs) && Ascending(recs) && Tagged(recs)
            && SlotsOf(recs) == ToMap(s)
  {
    var recs := EncodeSlots(s);
    forall i | 0 <= i < |recs|
      ensures |recs[i].0| < U32_LIMIT && |recs[i].1| < U32_LIMIT && DecodeValue(recs[i].1) == Some(s[i].1)
    {
      assert s[i] in s;
      ValueRoundTrip(s[i].1);
    }
    BodyBound(recs);
    SparseEntry(recs, 0);
    DecodeEncoded(s, |s|);
    assert recs[..|s|] == recs && s[..|s|] == s;
  }

  lemma {:induction false} DecodeEncoded(s: Entries<Slot>, n: nat)
    requires n <= |s|
    ensures SlotsOf(EncodeSlots(s)[..n]) == ToMap(s[..n])
  {
    var recs := EncodeSlots(s);
    if n == 0 {
    } else {
      DecodeEncoded(s, n - 1);
      ValueRoundTrip(s[n - 1].1);
      SlotsSnoc(recs[..n - 1], recs[n - 1]);
      assert recs[..n] == recs[..n - 1] + [recs[n - 1]];
      assert s[..n][..n - 1] == s[..n - 1];
    }
  }

  lemma {:induction false} LiveSlotsAreLive(s: Entries<Slot>)
    requires Ascending(s)
    ensures Ascending(LiveSlots(s))
    ensures forall e: (Bytes, Bytes) :: e in LiveSlots(s) <==> (e.0, Some(e.1)) in s
    ensures ToMap(LiveSlots(s)) == Live(ToMap(s))
  {
    LiveSlotsMembers(s);
    MapHolds(s);
    MapHolds(LiveSlots(s));
    var m, n := ToMap(LiveSlots(s)), Live(ToMap(s));
    forall k
      ensures k in m <==> k in n
      ensures k in n ==> m[k] == n[k]
    {
      if k in n {
        var e := (k, Some(n[k]));
        assert e in s;
        var d := (k, n[k]);
        assert d in LiveSlots(s);
      }
      if k in m {
        var d := (k, m[k]);
        assert d in LiveSlots(s);
        var e := (k, Some(m[k]));
        assert e in s;
      }
    }
  }

  lemma {:induction false} LiveSlotsMembers(s: Entries<Slot>)
    requires Ascending(s)
    ensures Ascending(LiveSlots(s))
    ensures forall e: (Bytes, Bytes) :: e in LiveSlots(s) <==> (e.0, Some(e.1)) in s
  {
    if s == [] {
    } else {
      LiveSlotsMembers(s[1..]);
      assert s == [s[0]] + s[1..];
      forall e: (Bytes, Bytes) | e in LiveSlots(s[1..])
        ensures Less(s[0].0, e.0)
      {
        FirstIsLeast(s, (e.0, Some(e.1)));
      }
      if s[0].1.Some? {
        AscendingCons((s[0].0, s[0].1.value), LiveSlots(s[1..]));
      } else {
        assert LiveSlots(s) == LiveSlots(s[1..]);
      }
    }
  }

  /** The directory `files` holds exactly the open `segments`, in ascending order below `nextSeq`. */
  ghost predicate Matches(segments: seq<Segment>, files: Files, nextSeq: nat)
  {
    && (forall i | 0 <= i < |segments| :: SegmentIs(segments[i], files) && segments[i].path < nextSeq)
    && (forall i, j | 0 <= i < j < |segments| :: segments[i].path < segments[j].path)
    && (forall p | p in files :: exists i :: 0 <= i < |segments| && segments[i].path == p)
  }

  ghost predicate SegmentIs(seg: Segment, files: Files)
  {
    && seg.path in files
    && GoodFile(files[seg.path])
    && OpenFile(seg.path, files[seg.path]) == Ok(seg)
  }

  lemma MatchedDisk(segments: seq<Segment>, files: Files, nextSeq: nat)
    requires Matches(segments, files, nextSeq)
    ensures GoodDisk(files) && Below(files, nextSeq)
    ensures Recovered(files) == Live(Merged(files, nextSeq))
  {
    hide GoodFile, OpenFile;
    forall p | p in files
      ensures GoodFile(files[p]) && p < nextSeq
    {
      var i :| 0 <= i < |segments| && segments[i].path == p;
      assert SegmentIs(segments[i], files);
    }
    MergedTop(files, nextSeq);
  }

  /** A newly written segment goes on top. */
  lemma PushSegment(segments: seq<Segment>, files: Files, nextSeq: nat, f: Bytes, seg: Segment)
    requires Matches(segments, files, nextSeq)
    requires GoodFile(f) && seg.path == nextSeq && OpenFile(nextSeq, f) == Ok(seg)
    ensures Matches(segments + [seg], files[nextSeq := f], nextSeq + 1)
    ensures Merged(files[nextSeq := f], nextSeq + 1) == Merged(files, nextSeq) + Layer(f)
  {
    hide GoodFile, OpenFile, Merged, Layer, Recovered, GoodDisk, Live;
    MatchedDisk(segments, files, nextSeq);
    RecoveredPush(files, nextSeq, f);
    var pushed, files' := segments + [seg], files[nextSeq := f];
    forall i | 0 <= i < |segments|
      ensures pushed[i] == segments[i] && SegmentIs(pushed[i], files')
    {
      assert SegmentIs(segments[i], files);
    }
    assert SegmentIs(pushed[|segments|], files');
    forall p | p in files'
      ensures exists i :: 0 <= i < |pushed| && pushed[i].path == p
    {
      if p == nextSeq {
        assert pushed[|segments|].path == p;
      } else {
        var i :| 0 <= i < |segments| && segments[i].path == p;
        assert pushed[i].path == p;
      }
    }
  }

  /** What writing `recs` under the next sequence number leaves behind. */
  lemma NewestSegment(segments: seq<Segment>, files: Files, nextSeq: nat, recs: seq<Record>)
    requires Matches(segments, files, nextSeq)
    requires Fits(recs) && Ascending(recs) && Tagged(recs)
    ensures var f := SegmentBytes(recs);
            var files' := files[nextSeq := f];
            && GoodFile(f) && Layer(f) == SlotsOf(recs)
            && OpenFile(nextSeq, f).Ok?
            && SegmentIs(OpenFile(nextSeq, f).value, files')
            && Matches(segments + [OpenFile(nextSeq, f).value], files', nextSeq + 1)
            && Merged(files', nextSeq + 1) == Merged(files, nextSeq) + SlotsOf(recs)
            && GoodDisk(files') && Recovered(files') == Live(Merged(files', nextSeq + 1))
  {
    var f := SegmentBytes(recs);
    WrittenIsGood(recs);
    GoodFileHolds(nextSeq, f);
    var seg := OpenFile(nextSeq, f).value;
    hide GoodFile, OpenFile, Live, Merged, SlotsOf, Fits, SegmentBytes, Tagged, Holds;
    PushSegment(segments, files, nextSeq, f, seg);
    MatchedDisk(segments + [seg], files[nextSeq := f], nextSeq + 1);
  }

  /** One more segment, merged onto the ones before it. */
  ghost function UpTo(segments: seq<Segment>, i: nat): nat
    requires i <= |segments|
  {
    if i == 0 then 0 else segments[i - 1].path + 1
  }

  lemma MergedStep(segments: seq<Segment>, files: Files, nextSeq: nat, i: nat)
    requires Matches(segments, files, nextSeq) && i < |segments|
    ensures Merged(files, UpTo(segments, i + 1)) == Merged(files, UpTo(segments, i)) + Layer(files[segments[i].path])
  {
    hide GoodFile, OpenFile, Layer;
    var p := segments[i].path;
    assert SegmentIs(segments[i], files);
    forall q | UpTo(segments, i) <= q < p
      ensures q !in files
    {
      forall j | 0 <= j < |segments|
        ensures segments[j].path != q
      {
        assert j < i ==> segments[j].path <= segments[i - 1].path;
      }
    }
    MergedGap(files, UpTo(segments, i), p);
  }

  lemma MergedAll(segments: seq<Segment>, files: Files, nextSeq: nat)
    requires Matches(segments, files, nextSeq)
    ensures Merged(files, UpTo(segments, |segments|)) == Merged(files, nextSeq)
  {
    hide GoodFile, OpenFile;
    var n := UpTo(segments, |segments|);
    forall q | n <= q < nextSeq
      ensures q !in files
    {
      forall j | 0 <= j < |segments|
        ensures segments[j].path != q
      {
        assert segments[j].path <= segments[|segments| - 1].path;
      }
    }
    MergedGap(files, n, nextSeq);
  }

  // ----- reading through the layers -----

  /** A lookup in one open segment is a lookup in its layer. */
  lemma SegmentLookup(seg: Segment, files: Files, key: Bytes)
    requires SegmentIs(seg, files)
    ensures Holds(files[seg.path], seg, RecordsOf(files[seg.path]))
    ensures var found := Find(RecordsOf(files[seg.path]), key);
            var layer := Layer(files[seg.path]);
            && (found.Some? <==> key in layer)
            && (key in layer ==> DecodeValue(found.value) == Some(layer[key]))
  {
    GoodFileHolds(seg.path, files[seg.path]);
    LayerLookup(files[seg.path], key);
  }

  /** The newest segment that has the key decides it. */
  lemma NewestDecides(segments: seq<Segment>, files: Files, nextSeq: nat, i: nat, key: Bytes)
    requires Matches(segments, files, nextSeq) && i < |segments|
    requires key in Layer(files[segments[i].path])
    requires forall j | i < j < |segments| :: key !in Layer(files[segments[j].path])
    ensures key in Merged(files, nextSeq)
    ensures Merged(files, nextSeq)[key] == Layer(files[segments[i].path])[key]
  {
    hide GoodFile, OpenFile, Merged, Layer;
    var p := segments[i].path;
    assert SegmentIs(segments[i], files);
    assert forall j | 0 <= j < i :: segments[j].path < p;
    forall q | p < q < nextSeq && q in files
      ensures key !in Layer(files[q])
    {
      var j :| 0 <= j < |segments| && segments[j].path == q;
    }
    MergedNewest(files, nextSeq, p, key);
  }

  lemma NoSegmentHas(segments: seq<Segment>, files: Files, nextSeq: nat, key: Bytes)
    requires Matches(segments, files, nextSeq)
    requires forall j | 0 <= j < |segments| :: key !in Layer(files[segments[j].path])
    ensures key !in Merged(files, nextSeq)
  {
    hide GoodFile, OpenFile, Merged, Layer;
    forall q | q < nextSeq && q in files
      ensures key !in Layer(files[q])
    {
      var j :| 0 <= j < |segments| && segments[j].path == q;
    }
    MergedAbsent(files, nextSeq, key);
  }

  /** Replaying records over a memtable, newer slots replacing older ones. */
  method MergeSlots(base: Entries<Slot>, recs: seq<Record>) returns (merged: Entries<Slot>)
    requires Ascending(base) && Tagged(recs)
    ensures Ascending(merged)
    ensures ToMap(merged) == ToMap(base) + SlotsOf(recs)
  {
    hide Less, Ascending, Insert, DecodeValue;
    merged := base;
    assert recs[..0] == [];
    for i := 0 to |recs|
      invariant Ascending(merged)
      invariant ToMap(merged) == ToMap(base) + SlotsOf(recs[..i])
    {
      assert recs[..i + 1] == recs[..i] + [recs[i]];
      SlotsSnoc(recs[..i], recs[i]);
      var inner := DecodeValue(recs[i].1);
      if inner.Some? {
        InsertIsUpdate(merged, recs[i].0, inner.value);
        merged := Insert(merged, recs[i].0, inner.value);
      }
    }
    assert recs[..|recs|] == recs;
  }

  /** Replaying records over the live entries, a tombstone removing its key outright. */
  method MergeLive(base: Entries<Bytes>, recs: seq<Record>, ghost newest: map<Bytes, Slot>)
    returns (live: Entries<Bytes>)
    requires Ascending(base) && Tagged(recs) && ToMap(base) == Live(newest)
    requires forall e | e in base :: SlotFits(e.0, Some(e.1))
    requires forall i | 0 <= i < |recs| :: |recs[i].0| < U32_LIMIT && |recs[i].1| < U32_LIMIT
    ensures Ascending(live)
    ensures ToMap(live) == Live(newest + SlotsOf(recs))
    ensures forall e | e in live :: SlotFits(e.0, Some(e.1))
  {
    hide Less, Ascending, Insert, Remove, SlotsOf, Live, ToMap;
    live := base;
    NoRecords(newest);
    for i := 0 to |recs|
      invariant Ascending(live)
      invariant ToMap(live) == Live(newest + SlotsOf(recs[..i]))
      invariant forall e | e in live :: SlotFits(e.0, Some(e.1))
    {
      var k, raw := recs[i].0, recs[i].1;
      assert recs[..i + 1] == recs[..i] + [recs[i]];
      SlotsSnoc(recs[..i], recs[i]);
      LiveUpdate(newest + SlotsOf(recs[..i]), k, DecodeValue(raw).value);
      UpdateAbove(newest, SlotsOf(recs[..i]), k, DecodeValue(raw).value);
      match DecodeValue(raw) {
        case Some(Some(v)) =>
          InsertIsUpdate(live, k, v);
          InsertEntries(live, k, v);
          live := Insert(live, k, v);
        case Some(None) =>
          RemoveIsMinus(live, k);
          RemoveEntries(live, k);
          live := Remove(live, k);
        case None =>
      }
    }
    assert recs[..|recs|] == recs;
  }

  lemma NoRecords(newest: map<Bytes, Slot>)
    ensures newest + SlotsOf([]) == newest
  {
  }

  lemma UpdateAbove(m: map<Bytes, Slot>, n: map<Bytes, Slot>, k: Bytes, slot: Slot)
    ensures m + n[k := slot] == (m + n)[k := slot]
  {
  }

  // ----- compaction -----

  /** The slots of live values: all present. */
  lemma AsSlotsMap(live: Entries<Bytes>)
    requires Ascending(live)
    ensures Ascending(AsSlots(live))
    ensures forall k :: k in ToMap(AsSlots(live)) <==> k in ToMap(live)
    ensures forall k | k in ToMap(live) :: ToMap(AsSlots(live))[k] == Some(ToMap(live)[k])
    ensures Live(ToMap(AsSlots(live))) == ToMap(live)
  {
    hide Less;
    AsSlotsPrefix(live, |live|);
    assert live[..|live|] == live && AsSlots(live)[..|live|] == AsSlots(live);
  }

  lemma {:induction false} AsSlotsPrefix(live: Entries<Bytes>, n: nat)
    requires n <= |live|
    ensures forall k :: k in ToMap(AsSlots(live)[..n]) <==> k in ToMap(live[..n])
    ensures forall k | k in ToMap(live[..n]) :: ToMap(AsSlots(live)[..n])[k] == Some(ToMap(live[..n])[k])
  {
    if n == 0 {
    } else {
      AsSlotsPrefix(live, n - 1);
      assert live[..n][..n - 1] == live[..n - 1];
      assert AsSlots(live)[..n][..n - 1] == AsSlots(live)[..n - 1];
    }
  }

  /** The directory once the merged segment, if any, is written under `m`. */
  ghost function AfterMerge(files: Files, m: nat, live: Entries<Bytes>): Files
  {
    if live == [] then files else files[m := SegmentBytes(EncodeSlots(AsSlots(live)))]
  }

  ghost predicate MergedFrom(files: Files, m: nat, live: Entries<Bytes>)
  {
    && GoodDisk(files) && Below(files, m)
    && Ascending(live) && AllFit(AsSlots(live))
    && ToMap(live) == Live(Merged(files, m))
  }

  /** Compaction is crash-safe: after the merged write, and after deleting any oldest-first part of
      the files it was merged from, what is left on disk recovers to the same live map. */
  lemma CrashPoint(files: Files, m: nat, live: Entries<Bytes>, cut: nat)
    requires MergedFrom(files, m, live) && cut <= m
    ensures var left := DropBelow(AfterMerge(files, m, live), cut);
            GoodDisk(left) && Recovered(left) == Live(Merged(files, m))
  {
    hide GoodFile, Merged, Layer, Less, SegmentBytes, Ascending, EncodeSlots, AsSlots, SlotsOf, Fits, Tagged,
         AllFit, ToMap, RecordsOf;
    var kept := DropBelow(files, cut);
    if live == [] {
      EmptyLive(live);
      DropKeepsEmpty(files, m, cut);
      MergedTop(kept, m);
    } else {
      var slots := AsSlots(live);
      var f := SegmentBytes(EncodeSlots(slots));
      AsSlotsMap(live);
      EncodedSlots(slots);
      WrittenIsGood(EncodeSlots(slots));
      WrittenLayer(EncodeSlots(slots));
      assert DropBelow(AfterMerge(files, m, live), cut) == kept[m := f];
      RecoveredPush(kept, m, f);
      MergeShadows(files, m, cut, ToMap(slots));
    }
  }

  lemma EmptyLive(live: Entries<Bytes>)
    requires live == []
    ensures ToMap(live) == map[]
  {
  }

  lemma WrittenLayer(recs: seq<Record>)
    requires RecordsOf(SegmentBytes(recs)) == recs
    ensures Layer(SegmentBytes(recs)) == SlotsOf(recs)
  {
  }

  /** Removing the next old file drops exactly what lies below the one after it. */
  lemma DropNext(segs: seq<Segment>, files: Files, nextSeq: nat, after: Files, i: nat)
    requires Matches(segs, files, nextSeq) && i < |segs|
    requires forall p | p in after :: p in files || p >= nextSeq
    ensures DropBelow(after, UpTo(segs, i)) - {segs[i].path} == DropBelow(after, UpTo(segs, i + 1))
    ensures UpTo(segs, i + 1) <= nextSeq
  {
    hide GoodFile, OpenFile, SegmentIs;
    var cut := UpTo(segs, i);
    forall p | p in after && cut <= p < segs[i].path + 1
      ensures p == segs[i].path
    {
      assert p in files;
      var j :| 0 <= j < |segs| && segs[j].path == p;
      assert forall x | 0 <= x < i :: segs[x].path < cut;
    }
  }

  lemma AfterMergeKeys(files: Files, m: nat, live: Entries<Bytes>)
    ensures forall p | p in AfterMerge(files, m, live) :: p in files || p >= m
  {
  }

  lemma DropNone(after: Files)
    ensures DropBelow(after, 0) == after
  {
  }

  /** When all the old files are gone, only the merged segment is left, and it is the live map. */
  lemma DropAll(segs: seq<Segment>, files: Files, nextSeq: nat, live: Entries<Bytes>)
    requires Matches(segs, files, nextSeq)
    ensures DropBelow(AfterMerge(files, nextSeq, live), UpTo(segs, |segs|))
            == if live == [] then map[] else map[nextSeq := SegmentBytes(EncodeSlots(AsSlots(live)))]
  {
    hide GoodFile, OpenFile, SegmentBytes;
    var cut := UpTo(segs, |segs|);
    forall p | p in files
      ensures p < cut
    {
      var j :| 0 <= j < |segs| && segs[j].path == p;
    }
  }

  /** The one layer a compaction leaves: the live map, no tombstones, and still what the cache holds. */
  ghost predicate NoTombstones(m: map<Bytes, Slot>)
  {
    forall k | k in m :: m[k].Some?
  }

  lemma CompactedLayer(base: map<Bytes, Slot>, live: Entries<Bytes>, layer: map<Bytes, Slot>)
    requires Ascending(live) && ToMap(live) == Live(base)
    requires layer == if live == [] then map[] else ToMap(AsSlots(live))
    ensures layer + map[] == layer && Live(layer) == Live(base)
    ensures NoTombstones(layer)
    ensures forall values | Coherent(values, base, map[]) :: Coherent(values, layer, map[])
  {
    hide Ascending;
    AsSlotsMap(live);
    if live == [] {
      EmptyLive(live);
    }
    forall values | Coherent(values, base, map[])
      ensures Coherent(values, layer, map[])
    {
      forall k | k in values
        ensures k in layer && layer[k] == Some(values[k])
      {
        assert k in Live(base) && Live(base)[k] == values[k];
      }
    }
  }

  lemma NoFiles(n: nat)
    ensures Matches([], map[], n) && Merged(map[], n) == map[]
  {
    MergedGap(map[], 0, n);
  }

  lemma OneMatches(seg: Segment, only: Files)
    requires SegmentIs(seg, only) && only.Keys == {seg.path}
    ensures Matches([seg], only, seg.path + 1)
  {
    hide SegmentIs;
    assert [seg][0].path in only;
  }

  lemma OneLayer(m: nat, f: Bytes, only: Files)
    requires only.Keys == {m} && only[m] == f
    ensures Merged(only, m + 1) == Layer(f)
  {
    hide Layer;
    MergedGap(only, 0, m);
    assert Merged(only, m) == map[];
    assert map[] + Layer(f) == Layer(f);
  }

  /** The merged file, alone, is a directory whose one layer is the live map. */
  lemma OnlySegment(files: Files, m: nat, live: Entries<Bytes>, seg: Segment, only: Files)
    requires MergedFrom(files, m, live) && live != []
    requires seg.path == m && only.Keys == {m} && only[m] == SegmentBytes(EncodeSlots(AsSlots(live)))
    requires SegmentIs(seg, only)
    ensures Matches([seg], only, m + 1)
    ensures Merged(only, m + 1) == ToMap(AsSlots(live))
  {
    hide GoodFile, OpenFile, SegmentBytes, Layer, Ascending, Less, SegmentIs, EncodeSlots, AsSlots, SlotsOf,
         Matches, Merged, Fits, Tagged, ToMap, RecordsOf, Live;
    var slots := AsSlots(live);
    AsSlotsMap(live);
    EncodedSlots(slots);
    WrittenIsGood(EncodeSlots(slots));
    WrittenLayer(EncodeSlots(slots));
    OneMatches(seg, only);
    OneLayer(m, SegmentBytes(EncodeSlots(slots)), only);
  }

  // ----- enumerating -----

  function Least(paths: set<nat>): (least: nat)
    requires paths != {}
    ensures least in paths && forall p | p in paths :: least <= p
  {
    assert exists least :: least in paths && forall p | p in paths :: least <= p by {
      var p :| p in paths;
      HasLeast(paths, p);
    }
    var least :| least in paths && forall p | p in paths :: least <= p;
    least
  }

  /** The segments' sequence numbers in ascending order, however the directory lists them. */
  function SortedPaths(paths: set<nat>): (s: seq<nat>)
    ensures forall p :: p in s <==> p in paths
    ensures forall i, j | 0 <= i < j < |s| :: s[i] < s[j]
  {
    if paths == {} then []
    else
      var least := Least(paths);
      var rest := SortedPaths(paths - {least});
      assert forall i | 0 <= i < |rest| :: rest[i] in paths - {least};
      [least] + rest
  }

  lemma {:induction false} HasLeast(paths: set<nat>, p: nat)
    requires p in paths
    ensures exists least :: least in paths && forall q | q in paths :: least <= q
  {
    if q :| q in paths && q < p {
      HasLeast(paths, q);
    } else {
      assert forall q | q in paths :: p <= q;
    }
  }

  ghost function Restrict<V>(m: map<Bytes, V>, prefix: Bytes): map<Bytes, V>
  {
    map k | k in m && prefix <= k :: m[k]
  }

  lemma {:induction false} WithPrefixMembers<V(!new)>(s: Entries<V>, prefix: Bytes)
    requires Ascending(s)
    ensures Ascending(WithPrefix(s, prefix))
    ensures forall e: (Bytes, V) :: e in WithPrefix(s, prefix) <==> e in s && prefix <= e.0
  {
    hide Less;
    if s == [] {
    } else {
      WithPrefixMembers(s[1..], prefix);
      assert s == [s[0]] + s[1..];
      forall e: (Bytes, V) | e in WithPrefix(s[1..], prefix)
        ensures Less(s[0].0, e.0)
      {
        FirstIsLeast(s, e);
      }
      if prefix <= s[0].0 {
        AscendingCons(s[0], WithPrefix(s[1..], prefix));
      } else {
        assert WithPrefix(s, prefix) == WithPrefix(s[1..], prefix);
      }
    }
  }

  /** Filtering records by prefix restricts their layer. */
  lemma PrefixSlots(recs: seq<Record>, prefix: Bytes)
    requires Ascending(recs) && Tagged(recs)
    ensures Tagged(WithPrefix(recs, prefix))
    ensures SlotsOf(WithPrefix(recs, prefix)) == Restrict(SlotsOf(recs), prefix)
  {
    hide Less, Ascending, WithPrefix, ToMap, DecodeValue;
    var some := WithPrefix(recs, prefix);
    WithPrefixMembers(recs, prefix);
    MapHolds(recs);
    MapHolds(some);
    forall i | 0 <= i < |some|
      ensures DecodeValue(some[i].1).Some?
    {
      assert some[i] in recs;
    }
    forall k
      ensures k in ToMap(some) <==> k in ToMap(recs) && prefix <= k
      ensures k in ToMap(some) ==> ToMap(some)[k] == ToMap(recs)[k]
    {
      if k in ToMap(recs) {
        var e := (k, ToMap(recs)[k]);
        assert e in recs;
        assert prefix <= k ==> e in some;
      }
      if k in ToMap(some) {
        var e := (k, ToMap(some)[k]);
        assert e in some && e in recs;
      }
    }
  }

  lemma RestrictMerge(m: map<Bytes, Slot>, n: map<Bytes, Slot>, prefix: Bytes)
    ensures Restrict(m + n, prefix) == Restrict(m, prefix) + Restrict(n, prefix)
    ensures Live(Restrict(m, prefix)) == Restrict(Live(m), prefix)
  {
  }

  class HuskStore {
    const disk: Disk
    const bufferLimit: nat
    var buffer: Entries<Slot>
    var segments: seq<Segment>
    var nextSeq: nat
    const cache: Lru<Bytes, Bytes>

    /** No cached key is buffered, and each cached value is the newest segment's. */
    ghost predicate CacheMatches()
      reads this, disk, cache
    {
      Coherent(cache.Values(), Merged(disk.files, nextSeq), ToMap(buffer))
    }

    ghost predicate Valid()
      reads this, disk, cache
    {
      && bufferLimit >= 1 && disk.Current()
      && Ascending(buffer) && AllFit(buffer)
      && Matches(segments, disk.files, nextSeq)
      && cache.Valid()
      && CacheMatches()
    }

    /** The map this store stands for. */
    ghost function View(): map<Bytes, Bytes>
      reads this, disk
    {
      Live(Merged(disk.files, nextSeq) + ToMap(buffer))
    }

    constructor FromParts(disk: Disk, bufferLimit: nat, segments: seq<Segment>, nextSeq: nat, cacheCap: nat)
      ensures Matches(segments, disk.files, nextSeq) && disk.Current() ==> Valid()
      ensures fresh(cache) && this.disk == disk && cache.cap == cacheCap
      ensures buffer == [] && this.segments == segments && this.nextSeq == nextSeq
      ensures this.bufferLimit == if bufferLimit == 0 then 1 else bufferLimit
    {
      this.disk := disk;
      this.bufferLimit := if bufferLimit == 0 then 1 else bufferLimit;
      this.segments := segments;
      this.nextSeq := nextSeq;
      buffer := [];
      cache := new Lru(cacheCap);
    }

    /** Insert or update `key`; the memtable goes to disk when it is full. */
    method Put(key: Bytes, value: Bytes)
      requires Valid() && SlotFits(key, Some(value)) && |buffer| < MAX_RECORDS
      modifies this, disk, cache
      ensures Valid()
      ensures View() == old(View())[key := value]
      ensures buffer == if |Insert(old(buffer), key, Some(value))| >= bufferLimit then []
                        else Insert(old(buffer), key, Some(value))
      ensures old(disk.history) <= disk.history && RecoversTo(disk.history, |old(disk.history)|, View())
    {
      Write(key, Some(value));
      LiveUpdate(Merged(old(disk.files), old(nextSeq)) + ToMap(old(buffer)), key, Some(value));
    }

    /** Delete `key`, leaving a tombstone. */
    method Delete(key: Bytes)
      requires Valid() && SlotFits(key, None) && |buffer| < MAX_RECORDS
      modifies this, disk, cache
      ensures Valid()
      ensures View() == old(View()) - {key}
      ensures Merged(disk.files, nextSeq) + ToMap(buffer)
              == old(Merged(disk.files, nextSeq) + ToMap(buffer))[key := None]
      ensures |segments| == |old(segments)| + if |Insert(old(buffer), key, None)| >= bufferLimit then 1 else 0
      ensures buffer == if |Insert(old(buffer), key, None)| >= bufferLimit then [] else Insert(old(buffer), key, None)
      ensures old(disk.history) <= disk.history && RecoversTo(disk.history, |old(disk.history)|, View())
    {
      Write(key, None);
      LiveUpdate(Merged(old(disk.files), old(nextSeq)) + ToMap(old(buffer)), key, None);
    }

    /** The common part of `Put` and `Delete`. */
    method Write(key: Bytes, slot: Slot)
      requires Valid() && SlotFits(key, slot) && |buffer| < MAX_RECORDS
      modifies this, disk, cache
      ensures Valid()
      ensures Merged(disk.files, nextSeq) + ToMap(buffer)
              == (Merged(old(disk.files), old(nextSeq)) + ToMap(old(buffer)))[key := slot]
      ensures View() == Live((Merged(old(disk.files), old(nextSeq)) + ToMap(old(buffer)))[key := slot])
      ensures |segments| == |old(segments)| + if |Insert(old(buffer), key, slot)| >= bufferLimit then 1 else 0
      ensures buffer == if |Insert(old(buffer), key, slot)| >= bufferLimit then [] else Insert(old(buffer), key, slot)
      ensures old(disk.history) <= disk.history && RecoversTo(disk.history, |old(disk.history)|, View())
    {
      hide GoodFile, OpenFile, Merged, Live, Matches, ToMap, EncodeValue, Insert, Less, GoodDisk, Recovered, SlotFits,
           Ascending, AllFit, Coherent;
      InsertIsUpdate(buffer, key, slot);
      InsertFits(buffer, key, slot);
      var newest := Merged(disk.files, nextSeq);
      assert newest + ToMap(buffer)[key := slot] == (newest + ToMap(buffer))[key := slot];
      buffer := Insert(buffer, key, slot);
      cache.Remove(key);
      StillCoherent(old(cache.Values()), newest, ToMap(old(buffer)), key, slot);
      if |buffer| >= bufferLimit {
        Flush();
        EmptyMemtable();
        assert Merged(disk.files, nextSeq) + map[] == Merged(disk.files, nextSeq);
      }
    }

    /** Write the memtable as a new segment, tombstones included. */
    method Flush()
      requires Valid()
      modifies this, disk
      ensures Valid() && buffer == []
      ensures |segments| == |old(segments)| + if old(buffer) == [] then 0 else 1
      ensures View() == old(View())
      ensures Merged(disk.files, nextSeq) == old(Merged(disk.files, nextSeq) + ToMap(buffer))
      ensures old(disk.history) <= disk.history && RecoversTo(disk.history, |old(disk.history)|, View())
    {
      hide GoodFile, OpenFile, Merged, Layer, Live, Matches, ToMap, SlotsOf, Fits, SegmentBytes, EncodeSlots, Less,
           Ascending, AllFit, GoodDisk, Recovered, Tagged;
      EmptyMemtable();
      if buffer == [] {
        assert Merged(disk.files, nextSeq) + map[] == Merged(disk.files, nextSeq);
        return;
      }
      ghost var newest, buffered := Merged(disk.files, nextSeq), ToMap(buffer);
      EncodedSlots(buffer);
      WriteNewest(EncodeSlots(buffer), buffered);
      buffer := [];
      assert newest + buffered + map[] == newest + buffered;
    }

    /** Write `recs` as the newest segment and open it. */
    method WriteNewest(recs: seq<Record>, ghost layer: map<Bytes, Slot>)
      requires Matches(segments, disk.files, nextSeq)
      requires Fits(recs) && Ascending(recs) && Tagged(recs) && SlotsOf(recs) == layer
      modifies this, disk
      ensures Matches(segments, disk.files, nextSeq)
      ensures buffer == old(buffer) && nextSeq == old(nextSeq) + 1
      ensures exists seg :: SegmentIs(seg, disk.files) && seg.path == old(nextSeq) && segments == old(segments) + [seg]
      ensures disk.files == old(disk.files)[old(nextSeq) := SegmentBytes(recs)]
      ensures GoodFile(SegmentBytes(recs)) && Layer(SegmentBytes(recs)) == layer
      ensures Merged(disk.files, nextSeq) == Merged(old(disk.files), old(nextSeq)) + layer
      ensures disk.history == old(disk.history) + [disk.files]
      ensures GoodDisk(disk.files) && Recovered(disk.files) == Live(Merged(disk.files, nextSeq))
    {
      hide GoodFile, OpenFile, Live, Merged, SlotsOf, Fits, SegmentBytes, SparseOf, Body, Tagged, Matches,
           SegmentIs, GoodDisk, Recovered, Layer, Ascending;
      NewestSegment(segments, disk.files, nextSeq, recs);
      var written := WriteSegment(recs);
      disk.Write(nextSeq, written.value);
      var handle := OpenSegment(nextSeq, written.value);
      segments := segments + [handle.value];
      nextSeq := nextSeq + 1;
    }

    /** The current value of `key`: the memtable wins, then the cache, then the newest segment. */
    method Get(key: Bytes) returns (r: Option<Bytes>)
      requires Valid()
      modifies cache
      ensures Valid()
      ensures r == Lookup(View(), key)
      ensures Find(buffer, key).None? && r.Some? && cache.cap > 0 ==> Lookup(cache.Values(), key) == r
      ensures Find(buffer, key).Some? || r.None? ==> cache.Values() == old(cache.Values())
    {
      hide GoodFile, OpenFile, Merged, Layer, ToMap, Less, Ascending, AllFit, Find, Matches, Lru<Bytes, Bytes>.Valid;
      FindIsLookup(buffer, key);
      var slot := Find(buffer, key);
      if slot.Some? {
        return slot.value;
      }
      var hit := cache.Get(key);
      if hit.Some? {
        return hit;
      }
      r := FromSegments(key);
      if r.Some? {
        cache.Insert(key, r.value);
      }
    }

    /** The newest segment that has the key decides; a tombstone there means deleted. */
    method FromSegments(key: Bytes) returns (r: Option<Bytes>)
      requires Matches(segments, disk.files, nextSeq)
      ensures r == Lookup(Live(Merged(disk.files, nextSeq)), key)
    {
      hide GoodFile, OpenFile, Merged, Layer, Less, Find, GetFrom, GetCost, Holds, DecodeValue;
      var i := |segments|;
      while i > 0
        invariant 0 <= i <= |segments|
        invariant forall j | i <= j < |segments| :: key !in Layer(disk.files[segments[j].path])
      {
        i := i - 1;
        var seg := segments[i];
        assert SegmentIs(seg, disk.files);
        SegmentLookup(seg, disk.files, key);
        var raw, decoded := SegmentFile.Get(seg, disk.files[seg.path], key);
        if raw.value.Some? {
          NewestDecides(segments, disk.files, nextSeq, i, key);
          var inner := DecodeValue(raw.value.value);
          return if inner.Some? then inner.value else None;
        }
      }
      NoSegmentHas(segments, disk.files, nextSeq, key);
      return None;
    }

    /** Merge every segment into one, dropping tombstones and shadowed values, then delete the merged
        files oldest first. Every state the disk passes through recovers to the same map. A single segment
        is left alone, so tombstones are gone exactly when there were two segments to merge, or none
        to drop. */
    method Compact()
      requires Valid() && |View()| <= MAX_RECORDS
      modifies this, disk
      ensures Valid() && buffer == [] && |segments| <= 1
      ensures View() == old(View())
      ensures NoTombstones(Merged(disk.files, nextSeq)) <==>
                || |old(segments)| + (if old(buffer) == [] then 0 else 1) >= 2
                || NoTombstones(old(Merged(disk.files, nextSeq) + ToMap(buffer)))
      ensures old(disk.history) <= disk.history && RecoversTo(disk.history, |old(disk.history)|, View())
    {
      hide GoodFile, OpenFile, Merged, Live, ToMap, SegmentBytes, Less, Ascending, AllFit, Matches, GoodDisk,
           Recovered, SlotsOf, NoTombstones;
      EmptyMemtable();
      Flush();
      ghost var view, base := View(), Merged(disk.files, nextSeq);
      assert base + map[] == base;
      if |segments| < 2 {
        return;
      }
      var live := MergeAll();
      LiveFits(live, view);
      MatchedDisk(segments, disk.files, nextSeq);
      ReplaceBy(live);
      assert Merged(disk.files, nextSeq) + map[] == Merged(disk.files, nextSeq);
    }

    /** Write the live entries as one segment, then delete the files they were merged from. */
    method ReplaceBy(live: Entries<Bytes>)
      requires Valid() && buffer == [] && MergedFrom(disk.files, nextSeq, live)
      modifies this, disk
      ensures Valid() && buffer == [] && |segments| <= 1
      ensures Live(Merged(disk.files, nextSeq)) == Live(old(Merged(disk.files, nextSeq)))
      ensures NoTombstones(Merged(disk.files, nextSeq))
      ensures old(disk.history) <= disk.history
      ensures RecoversTo(disk.history, |old(disk.history)|, Live(Merged(disk.files, nextSeq)))
    {
      hide GoodFile, OpenFile, Merged, Live, ToMap, SegmentBytes, Less, Ascending, AllFit, Matches, GoodDisk,
           Recovered, SlotsOf, MergedFrom, SegmentIs, EncodeSlots, AsSlots, Coherent, DropBelow, Fits, Tagged,
           UpTo, AfterMerge, Layer, NoTombstones, Lru<Bytes, Bytes>.Valid;
      EmptyMemtable();
      ghost var files, m, base := disk.files, nextSeq, Merged(disk.files, nextSeq);
      var merged := segments;
      LiveParts(files, m, live);
      if live != [] {
        WriteNewest(EncodeSlots(AsSlots(live)), ToMap(AsSlots(live)));
        CrashPoint(files, m, live, 0);
        DropNone(disk.files);
      }
      segments := segments[|merged|..];
      RemoveMerged(merged, files, m, live);
      DropAll(merged, files, m, live);
      if live == [] {
        NoFiles(nextSeq);
      } else {
        assert segments == [segments[0]];
        SegmentStays(segments[0], files[m := SegmentBytes(EncodeSlots(AsSlots(live)))], disk.files);
        OnlySegment(files, m, live, segments[0], disk.files);
      }
      CompactedLayer(base, live, Merged(disk.files, nextSeq));
    }

    /** Delete the merged-away files, oldest first. */
    method RemoveMerged(merged: seq<Segment>, ghost files: Files, ghost m: nat, ghost live: Entries<Bytes>)
      requires Matches(merged, files, m) && MergedFrom(files, m, live)
      requires disk.files == AfterMerge(files, m, live)
      modifies disk
      ensures disk.files == DropBelow(AfterMerge(files, m, live), UpTo(merged, |merged|))
      ensures old(disk.history) <= disk.history && (old(disk.Current()) ==> disk.Current())
      ensures RecoversTo(disk.history, |old(disk.history)|, Live(Merged(files, m)))
    {
      hide GoodFile, OpenFile, Merged, Live, Less, Ascending, AllFit, Matches, MergedFrom, GoodDisk, Recovered,
           DropBelow, AfterMerge;
      ghost var after := disk.files;
      DropNone(after);
      AfterMergeKeys(files, m, live);
      for i := 0 to |merged|
        invariant disk.files == DropBelow(after, UpTo(merged, i))
        invariant old(disk.history) <= disk.history && (old(disk.Current()) ==> disk.Current())
        invariant RecoversTo(disk.history, |old(disk.history)|, Live(Merged(files, m)))
      {
        DropNext(merged, files, m, after, i);
        CrashPoint(files, m, live, UpTo(merged, i + 1));
        disk.Remove(merged[i].path);
      }
    }

    /** Replay the segments oldest to newest: a newer write overwrites, a tombstone removes. */
    method MergeAll() returns (live: Entries<Bytes>)
      requires Matches(segments, disk.files, nextSeq)
      ensures Ascending(live)
      ensures ToMap(live) == Live(Merged(disk.files, nextSeq))
      ensures forall e | e in live :: SlotFits(e.0, Some(e.1))
    {
      hide GoodFile, OpenFile, Live, ToMap, SegmentBytes, Less, Ascending, SlotFits, SlotsOf, Holds, RecordsOf,
           RecordsFrom, Merged;
      live := [];
      NothingMerged(disk.files);
      for i := 0 to |segments|
        invariant Ascending(live)
        invariant ToMap(live) == Live(Merged(disk.files, UpTo(segments, i)))
        invariant forall e | e in live :: SlotFits(e.0, Some(e.1))
      {
        var seg := segments[i];
        assert SegmentIs(seg, disk.files);
        SegmentLookup(seg, disk.files, []);
        SegmentRecords(disk.files[seg.path], seg);
        var recs := Records(seg, disk.files[seg.path]);
        MergedStep(segments, disk.files, nextSeq, i);
        live := MergeLive(live, recs.value, Merged(disk.files, UpTo(segments, i)));
      }
      MergedAll(segments, disk.files, nextSeq);
    }

    /** Open a store on the segments found in `disk`. */
    static method Open(disk: Disk, bufferLimit: nat, cacheCap: nat) returns (r: Result<HuskStore>)
      ensures r.Ok? <==> forall p | p in disk.files :: OpenFile(p, disk.files[p]).Ok?
      ensures GoodDisk(disk.files) ==> r.Ok? && (disk.Current() ==> r.value.Valid())
      ensures r.Ok? ==>
                && fresh(r.value) && fresh(r.value.cache) && r.value.disk == disk && r.value.cache.cap == cacheCap
                && r.value.buffer == []
      ensures r.Ok? && GoodDisk(disk.files) ==> r.value.View() == Recovered(disk.files)
    {
      hide GoodFile, OpenFile, Merged, Live, Recovered, ToMap, SortedPaths, GoodDisk, Matches;
      var paths := SortedPaths(disk.files.Keys);
      var nextSeq := if paths == [] then 0 else paths[|paths| - 1] + 1;
      var loaded := OpenAll(disk, paths);
      if loaded.Err? {
        return Err(loaded.error);
      }
      var segments := loaded.value;
      var store := new HuskStore.FromParts(disk, bufferLimit, segments, nextSeq, cacheCap);
      EmptyMemtable();
      if GoodDisk(disk.files) {
        AllOpenMatch(paths, segments, disk.files, nextSeq);
        MatchedDisk(segments, disk.files, nextSeq);
        assert Merged(disk.files, nextSeq) + map[] == Merged(disk.files, nextSeq);
      }
      return Ok(store);
    }

    /** Open the files in order; the first that is not a segment is the error. */
    static method OpenAll(disk: Disk, paths: seq<nat>) returns (r: Result<seq<Segment>>)
      requires forall p :: p in paths <==> p in disk.files
      ensures r.Ok? <==> forall p | p in disk.files :: OpenFile(p, disk.files[p]).Ok?
      ensures r.Ok? ==> AllOpen(paths, r.value, disk.files)
      ensures GoodDisk(disk.files) ==> r.Ok?
    {
      hide GoodFile, OpenFile, GoodDisk;
      var segments: seq<Segment> := [];
      for i := 0 to |paths|
        invariant AllOpen(paths[..i], segments, disk.files)
      {
        assert paths[i] in disk.files;
        var seg := OpenSegment(paths[i], disk.files[paths[i]]);
        if seg.Err? {
          GoodDiskOpens(disk.files, paths[i]);
          return Err(seg.error);
        }
        OpensAsItself(paths[i], disk.files[paths[i]]);
        segments := segments + [seg.value];
      }
      assert paths[..|paths|] == paths;
      forall p | p in disk.files
        ensures OpenFile(p, disk.files[p]).Ok?
      {
        var i :| 0 <= i < |paths| && paths[i] == p;
      }
      return Ok(segments);
    }

    /** Every live entry in key order. */
    method LiveEntries() returns (r: Entries<Bytes>)
      requires Valid()
      ensures Ascending(r) && ToMap(r) == View()
    {
      hide GoodFile, OpenFile, Merged, Live, ToMap, Less, Ascending, SlotsOf, Holds, RecordsOf, RecordsFrom,
           Insert, Tagged, LiveSlots;
      var merged: Entries<Slot> := [];
      EmptyMemtable();
      assert Merged(disk.files, 0) == map[] by {
        NoneMerged(disk.files);
      }
      for i := 0 to |segments|
        invariant Ascending(merged)
        invariant ToMap(merged) == Merged(disk.files, UpTo(segments, i))
      {
        var seg := segments[i];
        assert SegmentIs(seg, disk.files);
        SegmentLookup(seg, disk.files, []);
        SegmentRecords(disk.files[seg.path], seg);
        var recs := Records(seg, disk.files[seg.path]);
        MergedStep(segments, disk.files, nextSeq, i);
        merged := MergeSlots(merged, recs.value);
      }
      MergedAll(segments, disk.files, nextSeq);
      merged := MergeBuffer(merged, buffer);
      LiveSlotsAreLive(merged);
      return LiveSlots(merged);
    }

    /** Every live entry whose key starts with `prefix`, in key order, touching only the prefix's
        range of each segment and of the memtable. */
    method ScanPrefix(prefix: Bytes) returns (r: Entries<Bytes>)
      requires Valid()
      ensures Ascending(r) && ToMap(r) == Restrict(View(), prefix)
    {
      hide GoodFile, OpenFile, Merged, Live, ToMap, Less, Ascending, SlotsOf, Holds, RecordsOf, PrefixFrom,
           ScanPrefixFrom, Insert, Tagged, LiveSlots, Restrict, WithPrefix;
      var merged: Entries<Slot> := [];
      EmptyMemtable();
      RestrictNone(disk.files, prefix);
      for i := 0 to |segments|
        invariant Ascending(merged)
        invariant ToMap(merged) == Restrict(Merged(disk.files, UpTo(segments, i)), prefix)
      {
        var seg := segments[i];
        assert SegmentIs(seg, disk.files);
        SegmentLookup(seg, disk.files, []);
        SegmentRecords(disk.files[seg.path], seg);
        PrefixSlots(RecordsOf(disk.files[seg.path]), prefix);
        var recs := SegmentFile.ScanPrefix(seg, disk.files[seg.path], prefix);
        MergedStep(segments, disk.files, nextSeq, i);
        RestrictMerge(Merged(disk.files, UpTo(segments, i)), Layer(disk.files[seg.path]), prefix);
        merged := MergeSlots(merged, recs.value);
      }
      MergedAll(segments, disk.files, nextSeq);
      merged := MergeRange(merged, buffer, prefix);
      RestrictMerge(Merged(disk.files, nextSeq), ToMap(buffer), prefix);
      RestrictMerge(Merged(disk.files, nextSeq) + ToMap(buffer), map[], prefix);
      LiveSlotsAreLive(merged);
      return LiveSlots(merged);
    }
  }

  /** The memtable is newest: its slots replace what the segments say. */
  method MergeBuffer(base: Entries<Slot>, buffer: Entries<Slot>) returns (merged: Entries<Slot>)
    requires Ascending(base)
    ensures Ascending(merged)
    ensures ToMap(merged) == ToMap(base) + ToMap(buffer)
  {
    hide Less, Ascending, Insert;
    merged := base;
    assert ToMap(buffer[..0]) == map[];
    for i := 0 to |buffer|
      invariant Ascending(merged)
      invariant ToMap(merged) == ToMap(base) + ToMap(buffer[..i])
    {
      assert buffer[..i + 1][..i] == buffer[..i];
      InsertIsUpdate(merged, buffer[i].0, buffer[i].1);
      merged := Insert(merged, buffer[i].0, buffer[i].1);
    }
    assert buffer[..|buffer|] == buffer;
  }

  /** Only the memtable's range from `prefix` on is walked, and only while keys start with it. */
  method MergeRange(base: Entries<Slot>, buffer: Entries<Slot>, prefix: Bytes) returns (merged: Entries<Slot>)
    requires Ascending(base) && Ascending(buffer)
    ensures Ascending(merged)
    ensures ToMap(merged) == ToMap(base) + Restrict(ToMap(buffer), prefix)
  {
    hide Less, Insert, Ascending, ToMap, Restrict;
    merged := base;
    NothingRanged(buffer, prefix);
    var i := 0;
    while i < |buffer|
      invariant 0 <= i <= |buffer|
      invariant Ascending(merged)
      invariant ToMap(merged) == ToMap(base) + Restrict(ToMap(buffer[..i]), prefix)
    {
      var k, slot := buffer[i].0, buffer[i].1;
      RestrictSnoc(buffer, i, prefix);
      if prefix <= k {
        InsertIsUpdate(merged, k, slot);
        merged := Insert(merged, k, slot);
      } else if !Less(k, prefix) {
        RestOutside(buffer, i, prefix);
        return;
      }
      i := i + 1;
    }
    assert buffer[..|buffer|] == buffer;
  }

  lemma NothingRanged(buffer: Entries<Slot>, prefix: Bytes)
    ensures Restrict(ToMap(buffer[..0]), prefix) == map[]
  {
  }

  lemma RestrictSnoc(buffer: Entries<Slot>, i: nat, prefix: Bytes)
    requires i < |buffer|
    ensures var before := Restrict(ToMap(buffer[..i]), prefix);
            Restrict(ToMap(buffer[..i + 1]), prefix)
            == if prefix <= buffer[i].0 then before[buffer[i].0 := buffer[i].1] else before
  {
    assert buffer[..i + 1][..i] == buffer[..i];
    assert ToMap(buffer[..i + 1]) == ToMap(buffer[..i])[buffer[i].0 := buffer[i].1];
  }

  lemma RestOutside(buffer: Entries<Slot>, i: nat, prefix: Bytes)
    requires Ascending(buffer) && i < |buffer|
    requires !Less(buffer[i].0, prefix) && !(prefix <= buffer[i].0)
    ensures Restrict(ToMap(buffer[..i]), prefix) == Restrict(ToMap(buffer), prefix)
  {
    hide Less;
    RestOutsideFrom(buffer, i, |buffer|, prefix);
    assert buffer[..|buffer|] == buffer;
  }

  lemma {:induction false} RestOutsideFrom(buffer: Entries<Slot>, i: nat, n: nat, prefix: Bytes)
    requires Ascending(buffer) && i < |buffer| && i <= n <= |buffer|
    requires !Less(buffer[i].0, prefix) && !(prefix <= buffer[i].0)
    ensures Restrict(ToMap(buffer[..i]), prefix) == Restrict(ToMap(buffer[..n]), prefix)
  {
    hide Less;
    if i < n {
      RestOutsideFrom(buffer, i, n - 1, prefix);
      assert buffer[..n][..n - 1] == buffer[..n - 1];
      if i < n - 1 {
        PastThePrefix(prefix, buffer[i].0, buffer[n - 1].0);
      }
    }
  }

  lemma NoneMerged(files: Files)
    ensures Merged(files, 0) == map[]
  {
  }

  lemma RestrictNone(files: Files, prefix: Bytes)
    ensures Restrict(Merged(files, 0), prefix) == map[]
  {
  }

  ghost predicate AllOpen(paths: seq<nat>, segments: seq<Segment>, files: Files)
  {
    && |segments| == |paths|
    && forall i | 0 <= i < |paths| ::
         paths[i] in files && OpenFile(paths[i], files[paths[i]]) == Ok(segments[i]) && segments[i].path == paths[i]
  }

  lemma AllOpenMatch(paths: seq<nat>, segments: seq<Segment>, files: Files, nextSeq: nat)
    requires GoodDisk(files) && AllOpen(paths, segments, files)
    requires forall i, j | 0 <= i < j < |paths| :: paths[i] < paths[j]
    requires forall p :: p in paths <==> p in files
    requires nextSeq == if paths == [] then 0 else paths[|paths| - 1] + 1
    ensures Matches(segments, files, nextSeq)
  {
    hide GoodFile, OpenFile;
    forall i | 0 <= i < |segments|
      ensures SegmentIs(segments[i], files)
    {
      assert GoodFile(files[paths[i]]);
    }
    forall p | p in files
      ensures exists i :: 0 <= i < |segments| && segments[i].path == p
    {
      var i :| 0 <= i < |paths| && paths[i] == p;
      assert segments[i].path == p;
    }
  }

  /** Opening keeps the path it was given, and a file this store wrote always opens. */
  lemma OpensAsItself(path: nat, f: Bytes)
    ensures OpenFile(path, f).Ok? ==> OpenFile(path, f).value.path == path
    ensures GoodFile(f) ==> OpenFile(path, f).Ok?
  {
    hide FromLittleEndian, ReadSparse, GoodFile;
    if GoodFile(f) {
      GoodFileHolds(path, f);
    }
  }

  lemma GoodDiskOpens(files: Files, p: nat)
    requires p in files && OpenFile(p, files[p]).Err?
    ensures !GoodDisk(files)
  {
    hide OpenFile, GoodFile;
    if GoodDisk(files) {
      assert GoodFile(files[p]);
      OpensAsItself(p, files[p]);
    }
  }

  lemma LiveParts(files: Files, m: nat, live: Entries<Bytes>)
    requires MergedFrom(files, m, live)
    ensures Ascending(live) && ToMap(live) == Live(Merged(files, m))
    ensures var recs := EncodeSlots(AsSlots(live));
            Fits(recs) && Ascending(recs) && Tagged(recs) && SlotsOf(recs) == ToMap(AsSlots(live))
    ensures AfterMerge(files, m, live)
            == if live == [] then files else files[m := SegmentBytes(EncodeSlots(AsSlots(live)))]
  {
    hide Fits, Ascending, Tagged, SlotsOf, SegmentBytes, EncodeSlots, AsSlots;
    AsSlotsMap(live);
    EncodedSlots(AsSlots(live));
  }

  lemma SegmentStays(seg: Segment, files: Files, files': Files)
    requires SegmentIs(seg, files) && seg.path in files' && files'[seg.path] == files[seg.path]
    ensures SegmentIs(seg, files')
  {
  }

  lemma NothingMerged(files: Files)
    ensures ToMap<Bytes>([]) == Live(Merged(files, 0)) && Ascending<Bytes>([])
  {
  }

  lemma SegmentRecords(f: Bytes, seg: Segment)
    requires GoodFile(f) && Holds(f, seg, RecordsOf(f))
    ensures Tagged(RecordsOf(f)) && Layer(f) == SlotsOf(RecordsOf(f))
    ensures forall i | 0 <= i < |RecordsOf(f)| ::
              |RecordsOf(f)[i].0| < U32_LIMIT && |RecordsOf(f)[i].1| < U32_LIMIT
  {
  }

  lemma LiveFits(live: Entries<Bytes>, view: map<Bytes, Bytes>)
    requires Ascending(live) && ToMap(live) == view && |view| <= MAX_RECORDS
    requires forall e | e in live :: SlotFits(e.0, Some(e.1))
    ensures AllFit(AsSlots(live))
  {
    hide Ascending;
    OneEntryPerKey(live);
    forall e | e in AsSlots(live)
      ensures SlotFits(e.0, e.1)
    {
      var i :| 0 <= i < |live| && AsSlots(live)[i] == e;
      assert live[i] in live;
    }
  }

  lemma EmptyMemtable()
    ensures ToMap<Slot>([]) == map[] && Ascending<Slot>([]) && AllFit([])
  {
  }

  /** The cache agrees with the segments and never overlaps the memtable. */
  ghost predicate Coherent(values: map<Bytes, Bytes>, newest: map<Bytes, Slot>, buffered: map<Bytes, Slot>)
  {
    forall k | k in values :: k !in buffered && k in newest && newest[k] == Some(values[k])
  }

  lemma StillCoherent(values: map<Bytes, Bytes>, newest: map<Bytes, Slot>, buffered: map<Bytes, Slot>, key: Bytes,
                      slot: Slot)
    requires Coherent(values, newest, buffered)
    ensures Coherent(values - {key}, newest, buffered[key := slot])
  {
  }

  lemma InsertFits(buffer: Entries<Slot>, key: Bytes, slot: Slot)
    requires Ascending(buffer) && AllFit(buffer) && SlotFits(key, slot) && |buffer| < MAX_RECORDS
    ensures Ascending(Insert(buffer, key, slot)) && AllFit(Insert(buffer, key, slot))
  {
    hide SlotFits, Ascending;
    InsertEntries(buffer, key, slot);
  }

  lemma LiveUpdate(m: map<Bytes, Slot>, k: Bytes, slot: Slot)
    ensures Live(m[k := slot]) == if slot.Some? then Live(m)[k := slot.value] else Live(m) - {k}
  {
  }
}
