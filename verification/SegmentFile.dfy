/** The loops that write a segment and read it back, each tied to what `SegmentFormat` says it
    computes and, on a file some `WriteSegment` produced, to the records that were written. */
module SegmentFile {
  import opened Bytes
  import opened Options
  import opened OrderedMap
  import opened SegmentFormat

  /** `f` and `seg` are the file and the opened handle of `recs`. */
  ghost predicate Holds(f: Bytes, seg: Segment, recs: seq<Record>)
  {
    && Fits(recs) && Ascending(recs)
    && f == SegmentBytes(recs)
    && seg == Segment(seg.path, SparseOf(recs), |Body(recs)|)
  }

  /** The bytes of a new segment; records that are not strictly ascending are refused. */
  method WriteSegment(recs: seq<Record>) returns (r: Result<Bytes>)
    ensures r == if Ascending(recs) then Ok(SegmentBytes(recs)) else Err(InvalidInput)
  {
    var i := 0;
    while i + 1 < |recs|
      invariant 0 <= i <= |recs|
      invariant i < |recs| || recs == []
      invariant recs != [] ==> Ascending(recs[..i + 1])
    {
      if !Less(recs[i].0, recs[i + 1].0) {
        return Err(InvalidInput);
      }
      AscendingSnoc(recs[..i + 1], recs[i + 1]);
      assert recs[..i + 2] == recs[..i + 1] + [recs[i + 1]];
      i := i + 1;
    }
    assert recs != [] ==> recs[..i + 1] == recs;
    var buf, sparse := WriteRecords(recs);
    var sparseOffset := |buf|;
    buf := buf + LittleEndian(|sparse|, 4);
    buf := WriteIndex(buf, sparse);
    buf := buf + LittleEndian(sparseOffset, 8);
    buf := buf + LittleEndian(MAGIC, 8);
    return Ok(buf);
  }

  /** The records, one after another, and an index entry for every STRIDE-th of them. */
  method WriteRecords(recs: seq<Record>) returns (buf: Bytes, sparse: seq<(Bytes, nat)>)
    ensures buf == Body(recs) && sparse == SparseOf(recs)
  {
    hide EncodeBytes;
    buf, sparse := [], [];
    for n := 0 to |recs|
      invariant buf == Body(recs[..n])
      invariant sparse == SparseOf(recs[..n])
    {
      assert recs[..n + 1][..n] == recs[..n];
      ghost var before := buf;
      if n % STRIDE == 0 {
        sparse := sparse + [(recs[n].0, |buf|)];
      }
      buf := buf + EncodeBytes(recs[n].0);
      buf := buf + EncodeBytes(recs[n].1);
      assert buf == before + EncodeRecord(recs[n]);
    }
    assert recs[..|recs|] == recs;
  }

  method WriteIndex(head: Bytes, sparse: seq<(Bytes, nat)>) returns (buf: Bytes)
    ensures buf == head + SparseBytes(sparse)
  {
    hide EncodeBytes, LittleEndian;
    buf := head;
    for n := 0 to |sparse|
      invariant buf == head + SparseBytes(sparse[..n])
    {
      assert sparse[..n + 1][..n] == sparse[..n];
      ghost var done := SparseBytes(sparse[..n]);
      buf := buf + EncodeBytes(sparse[n].0);
      buf := buf + LittleEndian(sparse[n].1, 8);
      assert buf == head + (done + EncodeBytes(sparse[n].0) + LittleEndian(sparse[n].1, 8));
    }
    assert sparse[..|sparse|] == sparse;
  }

  lemma AscendingSnoc(s: seq<Record>, e: Record)
    requires Ascending(s) && s != [] && Less(s[|s| - 1].0, e.0)
    ensures Ascending(s + [e])
  {
    var t := s + [e];
    forall i, j | 0 <= i < j < |t|
      ensures Less(t[i].0, t[j].0)
    {
      if j == |s| && i < |s| - 1 {
        LessTransitive(s[i].0, s[|s| - 1].0, e.0);
      }
    }
  }

  /** Open a segment, loading only its sparse index. */
  method OpenSegment(path: nat, f: Bytes) returns (r: Result<Segment>)
    ensures r == OpenFile(path, f)
    ensures forall recs | Fits(recs) && f == SegmentBytes(recs) ::
              r == Ok(Segment(path, SparseOf(recs), |Body(recs)|))
  {
    hide ReadBytes, SegmentBytes, Body, SparseOf, Fits;
    OpenReadsBack(path, f);
    if |f| < 16 {
      return Err(InvalidData);
    }
    var sparseOffset := FromLittleEndian(f[|f| - 16..|f| - 8]);
    if FromLittleEndian(f[|f| - 8..]) != MAGIC {
      return Err(InvalidData);
    }
    if sparseOffset > |f| - 16 {
      return Err(InvalidData);
    }
    var count := FromLittleEndian(f[sparseOffset..sparseOffset + 4]);  // the footer follows: never past the end
    assert ReadUInt(f, sparseOffset, 4) == Ok(count);
    var at: nat := sparseOffset + 4;
    var sparse: seq<(Bytes, nat)> := [];
    AfterNothing(ReadSparse(f, at, count));
    for i := 0 to count
      invariant ReadSparse(f, sparseOffset + 4, count) == After(sparse, ReadSparse(f, at, count - i))
    {
      var key :- ReadBytes(f, at);
      var off :- ReadUInt(f, at + 4 + |key|, 8);
      ghost var rest := ReadSparse(f, at + 12 + |key|, count - i - 1);
      AfterSnoc(sparse, (key, off), rest);
      at := at + 12 + |key|;
      sparse := sparse + [(key, off)];
    }
    assert sparse + [] == sparse;
    return Ok(Segment(path, sparse, sparseOffset));
  }

  lemma OpenReadsBack(path: nat, f: Bytes)
    ensures forall recs | Fits(recs) && f == SegmentBytes(recs) ::
              OpenFile(path, f) == Ok(Segment(path, SparseOf(recs), |Body(recs)|))
  {
    forall recs | Fits(recs) && f == SegmentBytes(recs)
      ensures OpenFile(path, f) == Ok(Segment(path, SparseOf(recs), |Body(recs)|))
    {
      OpenRecovers(path, recs);
    }
  }

  /** What a loop that has collected `done` will return when the rest of its run returns `rest`. */
  ghost function After<T>(done: seq<T>, rest: Result<seq<T>>): Result<seq<T>>
  {
    match rest
    case Ok(more) => Ok(done + more)
    case Err(e) => Err(e)
  }

  lemma AfterNothing<T>(rest: Result<seq<T>>)
    ensures After([], rest) == rest
  {
    if rest.Ok? {
      assert [] + rest.value == rest.value;
    }
  }

  lemma AfterSnoc<T>(done: seq<T>, e: T, rest: Result<seq<T>>)
    ensures After(done, After([e], rest)) == After(done + [e], rest)
  {
    if rest.Ok? {
      assert done + ([e] + rest.value) == done + [e] + rest.value;
    }
  }

  /** Fetch the value of `key`: one search of the sparse index, then a scan of at most
      STRIDE + 1 records. */
  method Get(seg: Segment, f: Bytes, key: Bytes) returns (r: Result<Option<Bytes>>, ghost decoded: nat)
    ensures r == GetFrom(f, seg, key) && decoded == GetCost(f, seg, key)
    ensures forall recs | Holds(f, seg, recs) ::
              r == Ok(Find(recs, key)) && decoded <= STRIDE + 1 && (decoded <= STRIDE <==> !BetweenBlocks(recs, key))
  {
    hide Holds, ScanFor, ScanCost, BetweenBlocks;
    GetReadsBack(f, seg, key);
    decoded := 0;
    if seg.sparse == [] {
      return Ok(None), 0;
    }
    var i := Rank(seg.sparse, key);
    if i < |seg.sparse| && seg.sparse[i].0 == key {
      r, decoded := ReadAt(seg, f, seg.sparse[i].1, key);
      return;
    }
    if i == 0 {
      return Ok(None), 0;
    }
    r, decoded := ReadAt(seg, f, seg.sparse[i - 1].1, key);
  }

  lemma GetReadsBack(f: Bytes, seg: Segment, key: Bytes)
    ensures forall recs | Holds(f, seg, recs) ::
              && GetFrom(f, seg, key) == Ok(Find(recs, key)) && GetCost(f, seg, key) <= STRIDE + 1
              && (GetCost(f, seg, key) <= STRIDE <==> !BetweenBlocks(recs, key))
  {
    hide SegmentBytes, SparseOf, Body, GetFrom, GetCost, BetweenBlocks, Find;
    forall recs | Holds(f, seg, recs)
      ensures GetFrom(f, seg, key) == Ok(Find(recs, key)) && GetCost(f, seg, key) <= STRIDE + 1
      ensures GetCost(f, seg, key) <= STRIDE <==> !BetweenBlocks(recs, key)
    {
      GetIsLookup(seg.path, recs, key);
      WithinStrideExactly(seg.path, recs, key);
    }
  }

  method ReadAt(seg: Segment, f: Bytes, start: nat, key: Bytes) returns (r: Result<Option<Bytes>>, ghost decoded: nat)
    ensures r == ScanFor(f, start, seg.recordsEnd, key)
    ensures decoded == ScanCost(f, start, seg.recordsEnd, key)
  {
    hide ReadBytes, Less;
    var pos := start;
    decoded := 0;
    while pos < seg.recordsEnd
      invariant ScanFor(f, start, seg.recordsEnd, key) == ScanFor(f, pos, seg.recordsEnd, key)
      invariant ScanCost(f, start, seg.recordsEnd, key) == decoded + ScanCost(f, pos, seg.recordsEnd, key)
    {
      var k :- ReadBytes(f, pos);
      var v :- ReadBytes(f, pos + 4 + |k|);
      pos := pos + (8 + |k| + |v|);
      decoded := decoded + 1;
      if k == key {
        return Ok(Some(v)), decoded;
      } else if Less(key, k) {
        return Ok(None), decoded;
      }
    }
    return Ok(None), decoded;
  }

  /** Every record, in ascending key order. */
  method Records(seg: Segment, f: Bytes) returns (r: Result<seq<Record>>)
    ensures r == RecordsFrom(f, 0, seg.recordsEnd)
    ensures forall recs | Holds(f, seg, recs) :: r == Ok(recs)
  {
    hide Holds, ReadBytes;
    RecordsReadBack(f, seg);
    var out: seq<Record> := [];
    var pos: nat := 0;
    AfterNothing(RecordsFrom(f, 0, seg.recordsEnd));
    while pos < seg.recordsEnd
      invariant RecordsFrom(f, 0, seg.recordsEnd) == After(out, RecordsFrom(f, pos, seg.recordsEnd))
    {
      var k :- ReadBytes(f, pos);
      var v :- ReadBytes(f, pos + 4 + |k|);
      AfterSnoc(out, (k, v), RecordsFrom(f, pos + 8 + |k| + |v|, seg.recordsEnd));
      pos := pos + (8 + |k| + |v|);
      out := out + [(k, v)];
    }
    assert out + [] == out;
    return Ok(out);
  }

  lemma RecordsReadBack(f: Bytes, seg: Segment)
    ensures forall recs | Holds(f, seg, recs) :: RecordsFrom(f, 0, seg.recordsEnd) == Ok(recs)
  {
    forall recs | Holds(f, seg, recs)
      ensures RecordsFrom(f, 0, seg.recordsEnd) == Ok(recs)
    {
      RecordsRoundTrip(recs);
    }
  }

  /** Every record whose key starts with `prefix`, in order, reading only the prefix's range. */
  method ScanPrefix(seg: Segment, f: Bytes, prefix: Bytes) returns (r: Result<seq<Record>>)
    ensures r == ScanPrefixFrom(f, seg, prefix)
    ensures forall recs | Holds(f, seg, recs) :: r == Ok(WithPrefix(recs, prefix))
  {
    hide Holds, ReadBytes, Less, Rank;
    ScanPrefixReadsBack(f, seg, prefix);
    if seg.sparse == [] {
      return Ok([]);
    }
    var i := Rank(seg.sparse, prefix);
    var start :=
      if i < |seg.sparse| && seg.sparse[i].0 == prefix then seg.sparse[i].1
      else if i == 0 then 0
      else seg.sparse[i - 1].1;
    var pos := start;
    var out: seq<Record> := [];
    AfterNothing(PrefixFrom(f, start, seg.recordsEnd, prefix));
    while pos < seg.recordsEnd
      invariant PrefixFrom(f, start, seg.recordsEnd, prefix)
                == After(out, PrefixFrom(f, pos, seg.recordsEnd, prefix))
    {
      var k :- ReadBytes(f, pos);
      var v :- ReadBytes(f, pos + 4 + |k|);
      ghost var here := pos;
      pos := pos + (8 + |k| + |v|);
      if Less(k, prefix) {
        continue;
      }
      if prefix <= k {
        AfterSnoc(out, (k, v), PrefixFrom(f, pos, seg.recordsEnd, prefix));
        out := out + [(k, v)];
      } else {
        break;
      }
    }
    assert out + [] == out;
    return Ok(out);
  }

  lemma ScanPrefixReadsBack(f: Bytes, seg: Segment, prefix: Bytes)
    ensures forall recs | Holds(f, seg, recs) :: ScanPrefixFrom(f, seg, prefix) == Ok(WithPrefix(recs, prefix))
  {
    forall recs | Holds(f, seg, recs)
      ensures ScanPrefixFrom(f, seg, prefix) == Ok(WithPrefix(recs, prefix))
    {
      ScanPrefixIsFilter(seg.path, recs, prefix);
    }
  }
}
