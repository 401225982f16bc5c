/** What a directory of segments means: each file is a layer, newer layers shadow older ones, and
    tombstones hide. Everything here is about the files alone, so it also says what a re-open finds. */
module HuskLayers {
  import opened Bytes
  import opened Options
  import opened OrderedMap
  import opened SegmentFormat
  import opened SegmentFile

  const TAG_PRESENT: byte := 1
  const TAG_TOMBSTONE: byte := 0

  /** `Some(v)` is a live value, `None` a tombstone. */
  type Slot = Option<Bytes>

  type Files = map<nat, Bytes>

  function EncodeValue(slot: Slot): Bytes
  {
    match slot
    case Some(b) => [TAG_PRESENT] + b
    case None => [TAG_TOMBSTONE]
  }

  /** `None` for a raw value whose tag is missing or unknown. */
  function DecodeValue(raw: Bytes): Option<Slot>
  {
    if raw == [] then None
    else if raw[0] == TAG_PRESENT then Some(Some(raw[1..]))
    else if raw[0] == TAG_TOMBSTONE then Some(None)
    else None
  }

  lemma ValueRoundTrip(slot: Slot)
    ensures DecodeValue(EncodeValue(slot)) == Some(slot)
  {
    if slot.Some? {
      assert EncodeValue(slot)[1..] == slot.value;
    }
  }

  /** Only an encoded value decodes to a value, and to a tombstone what starts like one. */
  lemma DecodesExactly(slot: Slot, raw: Bytes)
    ensures DecodeValue(raw) == Some(slot) <==>
              if slot.Some? then raw == EncodeValue(slot) else EncodeValue(slot) <= raw
  {
    ValueRoundTrip(slot);
    if raw != [] && raw[0] == TAG_PRESENT {
      assert raw == [TAG_PRESENT] + raw[1..];
    }
  }

  // ----- one file -----

  /** The records a full read of `f` returns, if it is a segment. */
  ghost function RecordsOf(f: Bytes): seq<Record>
  {
    match OpenFile(0, f)
    case Err(_) => []
    case Ok(seg) =>
      match RecordsFrom(f, 0, seg.recordsEnd)
      case Err(_) => []
      case Ok(recs) => recs
  }

  ghost predicate Tagged(recs: seq<Record>)
  {
    forall i | 0 <= i < |recs| :: DecodeValue(recs[i].1).Some?
  }

  /** `f` is a segment this store wrote. */
  ghost predicate GoodFile(f: Bytes)
  {
    && Fits(RecordsOf(f)) && Ascending(RecordsOf(f)) && Tagged(RecordsOf(f))
    && f == SegmentBytes(RecordsOf(f))
  }

  lemma WrittenIsGood(recs: seq<Record>)
    requires Fits(recs) && Ascending(recs) && Tagged(recs)
    ensures RecordsOf(SegmentBytes(recs)) == recs && GoodFile(SegmentBytes(recs))
  {
    OpenRecovers(0, recs);
    RecordsRoundTrip(recs);
    hide SegmentBytes, Body, SparseOf, Fits, Ascending;
  }

  lemma GoodFileHolds(path: nat, f: Bytes)
    requires GoodFile(f)
    ensures OpenFile(path, f).Ok? && OpenFile(path, f).value.path == path
    ensures Holds(f, OpenFile(path, f).value, RecordsOf(f))
  {
    OpenRecovers(path, RecordsOf(f));
    hide SegmentBytes, Body, SparseOf, Fits, Ascending;
  }

  /** What the records say, decoded. */
  ghost function SlotsOf(recs: seq<Record>): map<Bytes, Slot>
  {
    var m := ToMap(recs);
    map k | k in m && DecodeValue(m[k]).Some? :: DecodeValue(m[k]).value
  }

  ghost function Layer(f: Bytes): map<Bytes, Slot>
  {
    SlotsOf(RecordsOf(f))
  }

  lemma SlotsSnoc(recs: seq<Record>, r: Record)
    requires DecodeValue(r.1).Some?
    ensures SlotsOf(recs + [r]) == SlotsOf(recs)[r.0 := DecodeValue(r.1).value]
  {
    assert (recs + [r])[..|recs|] == recs;
    assert ToMap(recs + [r]) == ToMap(recs)[r.0 := r.1];
  }

  /** A lookup in one layer. */
  lemma LayerLookup(f: Bytes, k: Bytes)
    requires GoodFile(f)
    ensures Find(RecordsOf(f), k).Some? <==> k in Layer(f)
    ensures k in Layer(f) ==> DecodeValue(Find(RecordsOf(f), k).value) == Some(Layer(f)[k])
  {
    var recs := RecordsOf(f);
    FindIsLookup(recs, k);
    MapHolds(recs);
    if k in ToMap(recs) {
      var e := (k, ToMap(recs)[k]);
      assert e in recs;
      var i :| 0 <= i < |recs| && recs[i] == e;
      assert DecodeValue(recs[i].1).Some?;
    }
  }

  // ----- a directory -----

  ghost predicate GoodDisk(files: Files)
  {
    forall p | p in files :: GoodFile(files[p])
  }

  /** The files below `n`, merged oldest to newest. */
  ghost function Merged(files: Files, n: nat): map<Bytes, Slot>
  {
    if n == 0 then map[]
    else if n - 1 in files then Merged(files, n - 1) + Layer(files[n - 1])
    else Merged(files, n - 1)
  }

  /** The live entries: tombstones dropped. */
  ghost function Live(m: map<Bytes, Slot>): map<Bytes, Bytes>
  {
    map k | k in m && m[k].Some? :: m[k].value
  }

  ghost predicate Below(files: Files, n: nat)
  {
    forall p | p in files :: p < n
  }

  ghost function Top(paths: set<nat>): (n: nat)
    ensures forall p | p in paths :: p < n
  {
    if paths == {} then 0
    else
      var p :| p in paths;
      var n := Top(paths - {p});
      assert paths == paths - {p} + {p};
      if p < n then n else p + 1
  }

  /** What opening a store on these files will answer from. */
  ghost function Recovered(files: Files): map<Bytes, Bytes>
  {
    Live(Merged(files, Top(files.Keys)))
  }

  lemma {:induction false} MergedGap(files: Files, m: nat, n: nat)
    requires m <= n && forall p | m <= p < n :: p !in files
    ensures Merged(files, n) == Merged(files, m)
    decreases n - m
  {
    if m < n {
      MergedGap(files, m, n - 1);
    }
  }

  lemma MergedTop(files: Files, n: nat)
    requires Below(files, n)
    ensures Merged(files, n) == Merged(files, Top(files.Keys))
  {
    var t := Top(files.Keys);
    if t <= n {
      MergedGap(files, t, n);
    } else {
      MergedGap(files, n, t);
    }
  }

  lemma {:induction false} MergedSame(files: Files, files': Files, n: nat)
    requires forall p | p < n :: (p in files <==> p in files') && (p in files ==> files[p] == files'[p])
    ensures Merged(files, n) == Merged(files', n)
  {
    if n == 0 {
    } else {
      MergedSame(files, files', n - 1);
    }
  }

  /** Adding a newest file puts its layer on top. */
  lemma RecoveredPush(files: Files, path: nat, f: Bytes)
    requires Below(files, path)
    ensures Below(files[path := f], path + 1)
    ensures Merged(files[path := f], path + 1) == Merged(files, path) + Layer(f)
    ensures Recovered(files[path := f]) == Live(Merged(files, path) + Layer(f))
  {
    hide Layer, Live;
    MergedSame(files, files[path := f], path);
    MergedTop(files[path := f], path + 1);
  }

  /** The newest file that has a key decides it. */
  lemma {:induction false} MergedNewest(files: Files, n: nat, p: nat, k: Bytes)
    requires p in files && p < n && k in Layer(files[p])
    requires forall q | p < q < n && q in files :: k !in Layer(files[q])
    ensures k in Merged(files, n) && Merged(files, n)[k] == Layer(files[p])[k]
  {
    if n > p + 1 {
      MergedNewest(files, n - 1, p, k);
    }
  }

  lemma {:induction false} MergedAbsent(files: Files, n: nat, k: Bytes)
    requires forall q | q < n && q in files :: k !in Layer(files[q])
    ensures k !in Merged(files, n)
  {
    if n == 0 {
    } else {
      MergedAbsent(files, n - 1, k);
    }
  }

  // ----- removing old files after a merge -----

  /** `files` without the ones below `cut`. */
  ghost function DropBelow(files: Files, cut: nat): Files
  {
    map p | p in files && p >= cut :: files[p]
  }

  /** Dropping oldest files first only removes from the bottom: what a newer file says still stands,
      so a key can turn up live after the cut only if it was live before it. */
  lemma {:induction false} DropIsSuffix(files: Files, cut: nat, n: nat, k: Bytes)
    ensures k in Merged(DropBelow(files, cut), n) ==>
              k in Merged(files, n) && Merged(files, n)[k] == Merged(DropBelow(files, cut), n)[k]
  {
    if n <= cut {
      MergedAbsent(DropBelow(files, cut), n, k);
    } else {
      DropIsSuffix(files, cut, n - 1, k);
    }
  }

  /** A merged newest layer, holding all the live entries and nothing else, over any oldest-first
      suffix of what it was merged from, means the same as before. */
  lemma MergeShadows(files: Files, n: nat, cut: nat, top: map<Bytes, Slot>)
    requires Below(files, n)
    requires forall k :: k in top <==> k in Live(Merged(files, n))
    requires forall k | k in top :: top[k] == Merged(files, n)[k]
    ensures Live(Merged(DropBelow(files, cut), n) + top) == Live(Merged(files, n))
  {
    var whole, kept := Merged(files, n), Merged(DropBelow(files, cut), n);
    forall k
      ensures k in Live(kept + top) <==> k in Live(whole)
      ensures k in Live(whole) ==> Live(kept + top)[k] == Live(whole)[k]
    {
      DropIsSuffix(files, cut, n, k);
    }
  }

  /** The last step of a compaction with nothing live: old files go and no merged file replaces them. */
  lemma DropKeepsEmpty(files: Files, n: nat, cut: nat)
    requires Below(files, n) && Live(Merged(files, n)) == map[]
    ensures Live(Merged(DropBelow(files, cut), n)) == map[]
  {
    assert map[] == Merged(DropBelow(files, cut), n) - Merged(DropBelow(files, cut), n).Keys;
    MergeShadows(files, n, cut, map[]);
    assert Merged(DropBelow(files, cut), n) + map[] == Merged(DropBelow(files, cut), n);
  }
}
