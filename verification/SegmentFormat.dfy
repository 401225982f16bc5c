/** The byte format of an immutable sorted segment: records, a sparse index over every STRIDE-th
    of them, and a fixed footer. This module says what the bytes are and what reading them gives;
    `SegmentFile` holds the loops that write and read them. */
module SegmentFormat {
  import opened Bytes
  import opened Options
  import opened OrderedMap

  const STRIDE: nat := 64
  const MAGIC: nat := 0xC01D_1DEC_0000_0001
  const U32_LIMIT: nat := 0x1_0000_0000
  const U64_LIMIT: nat := 0x1_0000_0000_0000_0000

  /** A key and a raw value. */
  type Record = (Bytes, Bytes)

  datatype IoError = InvalidInput | InvalidData | UnexpectedEof

  datatype Result<+T> = Ok(value: T) | Err(error: IoError) {
    predicate IsFailure() {
      Err?
    }
    function PropagateFailure<U>(): Result<U>
      requires Err?
    {
      Err(error)
    }
    function Extract(): T
      requires Ok?
    {
      value
    }
  }

  /** The resident handle of a segment: its file (a sequence number) and its sparse index. */
  datatype Segment = Segment(path: nat, sparse: seq<(Bytes, nat)>, recordsEnd: nat)

  // ----- integers -----

  /** The low `width` bytes of `v`, least significant first: a cast to that width, then `to_le_bytes`. */
  function LittleEndian(v: nat, width: nat): (b: Bytes)
    ensures |b| == width
  {
    if width == 0 then [] else [v % 256] + LittleEndian(v / 256, width - 1)
  }

  lemma LowDigit(v: nat, low: nat)
    requires low < 256
    ensures (256 * v + low) % 256 == low && (256 * v + low) / 256 == v
  {
  }

  /** The low byte comes first, and the bytes after it are those of the rest. */
  lemma LowByteFirst(v: nat, width: nat, low: nat)
    requires low < 256 && width > 0
    ensures LittleEndian(256 * v + low, width) == [low] + LittleEndian(v, width - 1)
  {
    hide LittleEndian;
    LowDigit(v, low);
    LittleEndianUnfolds(256 * v + low, width);
  }

  lemma LittleEndianUnfolds(v: nat, width: nat)
    requires width > 0
    ensures LittleEndian(v, width) == [v % 256] + LittleEndian(v / 256, width - 1)
  {
  }

  function FromLittleEndian(b: Bytes): nat
  {
    if b == [] then 0 else b[0] + 256 * FromLittleEndian(b[1..])
  }

  function Pow256(n: nat): nat
  {
    if n == 0 then 1 else 256 * Pow256(n - 1)
  }

  lemma {:induction false} LittleEndianRoundTrip(v: nat, width: nat)
    requires v < Pow256(width)
    ensures FromLittleEndian(LittleEndian(v, width)) == v
  {
    if width == 0 {
    } else {
      LittleEndianRoundTrip(v / 256, width - 1);
      assert LittleEndian(v, width)[1..] == LittleEndian(v / 256, width - 1);
    }
  }

  lemma Widths()
    ensures Pow256(4) == U32_LIMIT && Pow256(8) == U64_LIMIT
  {
    assert Pow256(2) == 0x1_0000;
    assert Pow256(4) == 0x1_0000_0000;
    assert Pow256(6) == 0x1_0000_0000_0000;
  }

  // ----- what a segment file holds -----

  function EncodeBytes(b: Bytes): Bytes
  {
    LittleEndian(|b|, 4) + b
  }

  function EncodeRecord(r: Record): (b: Bytes)
    ensures |b| == 8 + |r.0| + |r.1|
  {
    EncodeBytes(r.0) + EncodeBytes(r.1)
  }

  function Body(recs: seq<Record>): Bytes
  {
    if recs == [] then [] else Body(recs[..|recs| - 1]) + EncodeRecord(recs[|recs| - 1])
  }

  function Offset(recs: seq<Record>, i: nat): nat
    requires i <= |recs|
  {
    |Body(recs[..i])|
  }

  function SparseOf(recs: seq<Record>): seq<(Bytes, nat)>
  {
    if recs == [] then []
    else
      var n := |recs| - 1;
      SparseOf(recs[..n]) + if n % STRIDE == 0 then [(recs[n].0, |Body(recs[..n])|)] else []
  }

  function SparseBytes(sparse: seq<(Bytes, nat)>): Bytes
  {
    if sparse == [] then []
    else
      var last := sparse[|sparse| - 1];
      SparseBytes(sparse[..|sparse| - 1]) + EncodeBytes(last.0) + LittleEndian(last.1, 8)
  }

  function SegmentBytes(recs: seq<Record>): Bytes
  {
    Body(recs) + LittleEndian(|SparseOf(recs)|, 4) + SparseBytes(SparseOf(recs))
    + LittleEndian(|Body(recs)|, 8) + LittleEndian(MAGIC, 8)
  }

  /** No length is cut short by its `as u32` cast, and no offset by its eight bytes. */
  ghost predicate Fits(recs: seq<Record>)
  {
    && (forall i | 0 <= i < |recs| :: |recs[i].0| < U32_LIMIT && |recs[i].1| < U32_LIMIT)
    && |SparseOf(recs)| < U32_LIMIT
    && |Body(recs)| < U64_LIMIT
  }

  // ----- what a reader does -----

  function ReadUInt(f: Bytes, at: nat, width: nat): Result<nat>
  {
    if at + width <= |f| then Ok(FromLittleEndian(f[at..at + width])) else Err(UnexpectedEof)
  }

  function ReadBytes(f: Bytes, at: nat): (r: Result<Bytes>)
    ensures r.Ok? ==> at + 4 + |r.value| <= |f|
  {
    var len :- ReadUInt(f, at, 4);
    if at + 4 + len <= |f| then Ok(f[at + 4..at + 4 + len]) else Err(UnexpectedEof)
  }

  function ReadSparse(f: Bytes, at: nat, count: nat): Result<seq<(Bytes, nat)>>
    decreases count
  {
    if count == 0 then Ok([])
    else
      var key :- ReadBytes(f, at);
      var off :- ReadUInt(f, at + 4 + |key|, 8);
      var rest :- ReadSparse(f, at + 12 + |key|, count - 1);
      Ok([(key, off)] + rest)
  }

  function OpenFile(path: nat, f: Bytes): Result<Segment>
  {
    if |f| < 16 then Err(InvalidData)
    else
      var sparseOffset := FromLittleEndian(f[|f| - 16..|f| - 8]);
      if FromLittleEndian(f[|f| - 8..]) != MAGIC then Err(InvalidData)
      else if sparseOffset > |f| - 16 then Err(InvalidData)
      else
        var count :- ReadUInt(f, sparseOffset, 4);
        var sparse :- ReadSparse(f, sparseOffset + 4, count);
        Ok(Segment(path, sparse, sparseOffset))
  }

  /** Too short for a footer is no segment; a footer alone, pointing at its own start, opens as an empty one. */
  lemma FooterAlone(path: nat, f: Bytes)
    ensures |f| < 16 ==> OpenFile(path, f) == Err(InvalidData)
    ensures f == LittleEndian(0, 8) + LittleEndian(MAGIC, 8) ==> OpenFile(path, f) == Ok(Segment(path, [], 0))
  {
    hide LittleEndian, FromLittleEndian;
    if f == LittleEndian(0, 8) + LittleEndian(MAGIC, 8) {
      Widths();
      LittleEndianRoundTrip(0, 8);
      LittleEndianRoundTrip(MAGIC, 8);
      ZeroBytes(4);
      assert f[..8] == LittleEndian(0, 8) && f[8..] == LittleEndian(MAGIC, 8);
      assert f[0..4] == LittleEndian(0, 8)[..4] == LittleEndian(0, 4);
      LittleEndianRoundTrip(0, 4);
    }
  }

  lemma {:induction false} ZeroBytes(n: nat)
    ensures LittleEndian(0, n) <= LittleEndian(0, n + 4)
  {
    if n == 0 {
    } else {
      ZeroBytes(n - 1);
    }
  }

  /** How many leading index entries are below `key`: where a binary search of an ascending index ends. */
  function Rank(sparse: seq<(Bytes, nat)>, key: Bytes): (n: nat)
    ensures n <= |sparse|
  {
    if sparse == [] || !Less(sparse[0].0, key) then 0 else 1 + Rank(sparse[1..], key)
  }

  /** Scan forward for `key`, stopping at the first record that is not below it. */
  function ScanFor(f: Bytes, at: nat, end: nat, key: Bytes): Result<Option<Bytes>>
    decreases end - at
  {
    if at >= end then Ok(None)
    else
      var k :- ReadBytes(f, at);
      var v :- ReadBytes(f, at + 4 + |k|);
      if k == key then Ok(Some(v))
      else if Less(key, k) then Ok(None)
      else ScanFor(f, at + 8 + |k| + |v|, end, key)
  }

  /** How many records that scan decodes. */
  function ScanCost(f: Bytes, at: nat, end: nat, key: Bytes): nat
    decreases end - at
  {
    if at >= end then 0
    else
      match ReadBytes(f, at)
      case Err(_) => 0
      case Ok(k) =>
        match ReadBytes(f, at + 4 + |k|)
        case Err(_) => 0
        case Ok(v) =>
          if k == key || Less(key, k) then 1 else 1 + ScanCost(f, at + 8 + |k| + |v|, end, key)
  }

  /** Where a lookup starts reading, if anywhere: at the last indexed record not above `key`. */
  function StartOf(sparse: seq<(Bytes, nat)>, key: Bytes): Option<nat>
  {
    var i := Rank(sparse, key);
    if i < |sparse| && sparse[i].0 == key then Some(sparse[i].1)
    else if i == 0 then None
    else Some(sparse[i - 1].1)
  }

  function GetFrom(f: Bytes, seg: Segment, key: Bytes): Result<Option<Bytes>>
  {
    match StartOf(seg.sparse, key)
    case None => Ok(None)
    case Some(start) => ScanFor(f, start, seg.recordsEnd, key)
  }

  function GetCost(f: Bytes, seg: Segment, key: Bytes): nat
  {
    match StartOf(seg.sparse, key)
    case None => 0
    case Some(start) => ScanCost(f, start, seg.recordsEnd, key)
  }

  function RecordsFrom(f: Bytes, at: nat, end: nat): Result<seq<Record>>
    decreases end - at
  {
    if at >= end then Ok([])
    else
      var k :- ReadBytes(f, at);
      var v :- ReadBytes(f, at + 4 + |k|);
      var rest :- RecordsFrom(f, at + 8 + |k| + |v|, end);
      Ok([(k, v)] + rest)
  }

  function PrefixFrom(f: Bytes, at: nat, end: nat, prefix: Bytes): Result<seq<Record>>
    decreases end - at
  {
    if at >= end then Ok([])
    else
      var k :- ReadBytes(f, at);
      var v :- ReadBytes(f, at + 4 + |k|);
      if Less(k, prefix) then PrefixFrom(f, at + 8 + |k| + |v|, end, prefix)
      else if prefix <= k then
        var rest :- PrefixFrom(f, at + 8 + |k| + |v|, end, prefix);
        Ok([(k, v)] + rest)
      else Ok([])
  }

  function ScanPrefixFrom(f: Bytes, seg: Segment, prefix: Bytes): Result<seq<Record>>
  {
    if seg.sparse == [] then Ok([])
    else
      match StartOf(seg.sparse, prefix)
      case None => PrefixFrom(f, 0, seg.recordsEnd, prefix)
      case Some(start) => PrefixFrom(f, start, seg.recordsEnd, prefix)
  }

  /** The entries whose key starts with `prefix`, in order. */
  function WithPrefix<V>(s: Entries<V>, prefix: Bytes): Entries<V>
  {
    if s == [] then []
    else (if prefix <= s[0].0 then [s[0]] else []) + WithPrefix(s[1..], prefix)
  }

  // ----- bytes at a position -----

  ghost predicate At(f: Bytes, pos: nat, b: Bytes)
  {
    pos + |b| <= |f| && f[pos..pos + |b|] == b
  }

  lemma AtSplit(f: Bytes, pos: nat, a: Bytes, b: Bytes)
    requires At(f, pos, a + b)
    ensures At(f, pos, a) && At(f, pos + |a|, b)
  {
    assert f[pos..pos + |a|] == f[pos..pos + |a + b|][..|a|] == (a + b)[..|a|];
    assert f[pos + |a|..pos + |a + b|] == f[pos..pos + |a + b|][|a|..] == (a + b)[|a|..];
  }

  lemma AtWithin(f: Bytes, pos: nat, b: Bytes, inner: nat, c: Bytes)
    requires At(f, pos, b) && At(b, inner, c)
    ensures At(f, pos + inner, c)
  {
    forall i | 0 <= i < |c|
      ensures f[pos + inner + i] == c[i]
    {
      assert f[pos..pos + |b|][inner + i] == b[inner..inner + |c|][i];
    }
    assert f[pos + inner..pos + inner + |c|] == c;
  }

  lemma ReadUIntAt(f: Bytes, at: nat, v: nat, width: nat)
    requires v < Pow256(width) && At(f, at, LittleEndian(v, width))
    ensures ReadUInt(f, at, width) == Ok(v)
  {
    LittleEndianRoundTrip(v, width);
  }

  lemma ReadBytesAt(f: Bytes, at: nat, b: Bytes)
    requires |b| < U32_LIMIT && At(f, at, EncodeBytes(b))
    ensures ReadBytes(f, at) == Ok(b)
  {
    Widths();
    AtSplit(f, at, LittleEndian(|b|, 4), b);
    ReadUIntAt(f, at, |b|, 4);
  }

  lemma ReadRecordAt(f: Bytes, at: nat, r: Record)
    requires |r.0| < U32_LIMIT && |r.1| < U32_LIMIT && At(f, at, EncodeRecord(r))
    ensures ReadBytes(f, at) == Ok(r.0)
    ensures ReadBytes(f, at + 4 + |r.0|) == Ok(r.1)
  {
    AtSplit(f, at, EncodeBytes(r.0), EncodeBytes(r.1));
    ReadBytesAt(f, at, r.0);
    ReadBytesAt(f, at + 4 + |r.0|, r.1);
  }

  /** Record `i` sits at its offset, and the next one starts where it ends. */
  lemma {:induction false} RecordInBody(recs: seq<Record>, i: nat)
    requires i < |recs|
    ensures At(Body(recs), Offset(recs, i), EncodeRecord(recs[i]))
    ensures Offset(recs, i + 1) == Offset(recs, i) + |EncodeRecord(recs[i])|
    decreases |recs|
  {
    var n := |recs| - 1;
    assert recs[..i + 1][..i] == recs[..i];
    if i < n {
      RecordInBody(recs[..n], i);
      assert recs[..n][..i] == recs[..i];
    } else {
      assert recs[..i + 1] == recs;
    }
  }

  lemma {:induction false} OffsetsAscend(recs: seq<Record>, i: nat, j: nat)
    requires i <= j <= |recs|
    ensures Offset(recs, i) + 8 * (j - i) <= Offset(recs, j)
    decreases j - i
  {
    if i < j {
      RecordInBody(recs, i);
      OffsetsAscend(recs, i + 1, j);
    }
  }

  lemma OffsetEnd(recs: seq<Record>)
    ensures Offset(recs, |recs|) == |Body(recs)| && Offset(recs, 0) == 0
  {
    assert recs[..|recs|] == recs;
  }

  /** Reading `f` at offset `i` of `recs` returns record `i`, and the next record follows it. */
  ghost predicate RecordAt(f: Bytes, recs: seq<Record>, i: nat)
    requires i < |recs|
  {
    && ReadBytes(f, Offset(recs, i)) == Ok(recs[i].0)
    && ReadBytes(f, Offset(recs, i) + 4 + |recs[i].0|) == Ok(recs[i].1)
    && Offset(recs, i) + 8 + |recs[i].0| + |recs[i].1| == Offset(recs, i + 1)
    && Offset(recs, i) < Offset(recs, |recs|)
  }

  ghost predicate Readable(f: Bytes, recs: seq<Record>)
  {
    forall i | 0 <= i < |recs| :: RecordAt(f, recs, i)
  }

  lemma SegmentIsReadable(recs: seq<Record>)
    requires Fits(recs)
    ensures Readable(SegmentBytes(recs), recs)
  {
    hide ReadBytes, Offset, Body, SparseOf, LittleEndian;
    var f := SegmentBytes(recs);
    forall i | 0 <= i < |recs|
      ensures RecordAt(f, recs, i)
    {
      RecordInBody(recs, i);
      OffsetsAscend(recs, i + 1, |recs|);
      assert f[0..|Body(recs)|] == Body(recs);
      AtWithin(f, 0, Body(recs), Offset(recs, i), EncodeRecord(recs[i]));
      ReadRecordAt(f, Offset(recs, i), recs[i]);
    }
  }

  // ----- the sparse index -----

  /** Entry `j` of the index is record `STRIDE * j` with its true offset. */
  lemma {:induction false} SparseEntry(recs: seq<Record>, j: nat)
    ensures |SparseOf(recs)| == (|recs| + STRIDE - 1) / STRIDE
    ensures j < |SparseOf(recs)| ==>
              STRIDE * j < |recs|
              && SparseOf(recs)[j] == (recs[STRIDE * j].0, Offset(recs, STRIDE * j))
    decreases |recs|
  {
    if recs == [] {
    } else {
      var n := |recs| - 1;
      SparseEntry(recs[..n], j);
      if j < |SparseOf(recs[..n])| {
        assert recs[..n][..STRIDE * j] == recs[..STRIDE * j];
      }
    }
  }

  lemma {:induction false} SparseStep(f: Bytes, at: nat, e: (Bytes, nat), rest: seq<(Bytes, nat)>)
    requires ReadBytes(f, at) == Ok(e.0) && ReadUInt(f, at + 4 + |e.0|, 8) == Ok(e.1)
    requires ReadSparse(f, at + 12 + |e.0|, |rest|) == Ok(rest)
    ensures ReadSparse(f, at, 1 + |rest|) == Ok([e] + rest)
  {
    hide ReadBytes, ReadUInt;
    assert e == (e.0, e.1);
  }

  /** An index entry found at `pos` reads back field by field. */
  lemma EntryReadsBack(f: Bytes, pos: nat, e: (Bytes, nat))
    requires |e.0| < U32_LIMIT && e.1 < U64_LIMIT
    requires At(f, pos, EncodeBytes(e.0) + LittleEndian(e.1, 8))
    ensures ReadBytes(f, pos) == Ok(e.0) && ReadUInt(f, pos + 4 + |e.0|, 8) == Ok(e.1)
  {
    hide ReadBytes, ReadUInt, LittleEndian;
    AtSplit(f, pos, EncodeBytes(e.0), LittleEndian(e.1, 8));
    ReadBytesAt(f, pos, e.0);
    Widths();
    ReadUIntAt(f, pos + 4 + |e.0|, e.1, 8);
  }

  lemma SparseBytesGrow(done: seq<(Bytes, nat)>, e: (Bytes, nat))
    ensures |SparseBytes(done + [e])| == |SparseBytes(done)| + 12 + |e.0|
  {
    assert (done + [e])[..|done|] == done;
  }

  lemma {:induction false} ReadsBackSparse(f: Bytes, at: nat, sparse: seq<(Bytes, nat)>,
                                           done: seq<(Bytes, nat)>, rest: seq<(Bytes, nat)>)
    requires At(f, at, SparseBytes(sparse)) && sparse == done + rest
    requires forall j | 0 <= j < |sparse| :: |sparse[j].0| < U32_LIMIT && sparse[j].1 < U64_LIMIT
    ensures ReadSparse(f, at + |SparseBytes(done)|, |rest|) == Ok(rest)
    decreases |rest|
  {
    hide ReadBytes, ReadUInt, LittleEndian, SparseBytes, At, EncodeBytes;
    if rest == [] {
    } else {
      var e := rest[0];
      assert e == sparse[|done|];
      var pos := at + |SparseBytes(done)|;
      SparseEntryAt(sparse, done, e);
      AtWithin(f, at, SparseBytes(sparse), |SparseBytes(done)|, EncodeBytes(e.0) + LittleEndian(e.1, 8));
      EntryReadsBack(f, pos, e);
      assert sparse == (done + [e]) + rest[1..];
      SparseBytesGrow(done, e);
      ReadsBackSparse(f, at, sparse, done + [e], rest[1..]);
      SparseStep(f, pos, e, rest[1..]);
      assert rest == [e] + rest[1..];
    }
  }

  function SparseEntryBytes(e: (Bytes, nat)): Bytes
  {
    EncodeBytes(e.0) + LittleEndian(e.1, 8)
  }

  lemma SparseBytesPush(done: seq<(Bytes, nat)>, e: (Bytes, nat))
    ensures SparseBytes(done + [e]) == SparseBytes(done) + SparseEntryBytes(e)
  {
    hide EncodeBytes, LittleEndian;
    assert (done + [e])[..|done|] == done;
  }

  lemma SparseEntryAt(sparse: seq<(Bytes, nat)>, done: seq<(Bytes, nat)>, e: (Bytes, nat))
    requires done + [e] <= sparse
    ensures At(SparseBytes(sparse), |SparseBytes(done)|, SparseEntryBytes(e))
  {
    hide At, SparseBytes, SparseEntryBytes;
    var done' := done + [e];
    assert sparse[..|done'|] == done';
    SparseBytesPrefix(sparse, |done'|);
    SparseBytesPush(done, e);
    WholeAt(SparseBytes(done'));
    AtSplit(SparseBytes(done'), 0, SparseBytes(done), SparseEntryBytes(e));
    AtWithin(SparseBytes(sparse), 0, SparseBytes(done'), |SparseBytes(done)|, SparseEntryBytes(e));
  }

  lemma WholeAt(f: Bytes)
    ensures At(f, 0, f)
  {
  }

  lemma {:induction false} SparseBytesPrefix(sparse: seq<(Bytes, nat)>, j: nat)
    requires j <= |sparse|
    ensures At(SparseBytes(sparse), 0, SparseBytes(sparse[..j]))
    decreases |sparse|
  {
    if j == |sparse| {
      assert sparse[..j] == sparse;
    } else {
      var n := |sparse| - 1;
      SparseBytesPrefix(sparse[..n], j);
      assert sparse[..n][..j] == sparse[..j];
      assert SparseBytes(sparse)[..|SparseBytes(sparse[..n])|] == SparseBytes(sparse[..n]);
      AtWithin(SparseBytes(sparse), 0, SparseBytes(sparse[..n]), 0, SparseBytes(sparse[..j]));
    }
  }

  /** The parts of the file of `recs`, each where the reader looks for it. */
  lemma FileParts(recs: seq<Record>)
    ensures var f, n := SegmentBytes(recs), |Body(recs)|;
            && |f| == n + 4 + |SparseBytes(SparseOf(recs))| + 16
            && At(f, n, LittleEndian(|SparseOf(recs)|, 4))
            && At(f, n + 4, SparseBytes(SparseOf(recs)))
            && f[|f| - 16..|f| - 8] == LittleEndian(n, 8)
            && f[|f| - 8..] == LittleEndian(MAGIC, 8)
  {
    hide LittleEndian, SparseBytes, SparseOf, Body;
    var body, index := Body(recs), SparseBytes(SparseOf(recs));
    PartsInOrder(body, LittleEndian(|SparseOf(recs)|, 4), index, LittleEndian(|body|, 8), LittleEndian(MAGIC, 8));
  }

  lemma PartsInOrder(body: Bytes, count: Bytes, index: Bytes, end: Bytes, magic: Bytes)
    requires |count| == 4 && |end| == 8 && |magic| == 8
    ensures var f, n := body + count + index + end + magic, |body|;
            && |f| == n + 4 + |index| + 16
            && At(f, n, count) && At(f, n + 4, index)
            && f[|f| - 16..|f| - 8] == end && f[|f| - 8..] == magic
  {
    var f, n := body + count + index + end + magic, |body|;
    assert f[n..n + 4] == count;
    assert f[n + 4..n + 4 + |index|] == index;
  }

  /** Opening the file of `recs` recovers its sparse index and the end of its records. */
  lemma OpenRecovers(path: nat, recs: seq<Record>)
    requires Fits(recs)
    ensures OpenFile(path, SegmentBytes(recs)) == Ok(Segment(path, SparseOf(recs), |Body(recs)|))
  {
    hide ReadBytes, SegmentBytes, SparseOf, Body, LittleEndian, ReadSparse;
    var sparse, n := SparseOf(recs), |Body(recs)|;
    FileParts(recs);
    Widths();
    assert MAGIC < U64_LIMIT;
    LittleEndianRoundTrip(MAGIC, 8);
    LittleEndianRoundTrip(n, 8);
    ReadUIntAt(SegmentBytes(recs), n, |sparse|, 4);
    forall j | 0 <= j < |sparse|
      ensures |sparse[j].0| < U32_LIMIT && sparse[j].1 < U64_LIMIT
    {
      SparseEntry(recs, j);
      OffsetsAscend(recs, STRIDE * j, |recs|);
      OffsetEnd(recs);
    }
    ReadsBackSparse(SegmentBytes(recs), n + 4, sparse, [], sparse);
  }

  // ----- reading the records back -----

  lemma {:induction false} RecordsStep(f: Bytes, at: nat, end: nat, r: Record, rest: seq<Record>)
    requires at < end
    requires ReadBytes(f, at) == Ok(r.0) && ReadBytes(f, at + 4 + |r.0|) == Ok(r.1)
    requires RecordsFrom(f, at + 8 + |r.0| + |r.1|, end) == Ok(rest)
    ensures RecordsFrom(f, at, end) == Ok([r] + rest)
  {
    hide ReadBytes;
    assert r == (r.0, r.1);
  }

  lemma {:induction false} RecordsFromOffset(f: Bytes, recs: seq<Record>, i: nat)
    requires Readable(f, recs) && i <= |recs|
    ensures RecordsFrom(f, Offset(recs, i), Offset(recs, |recs|)) == Ok(recs[i..])
    decreases |recs| - i
  {
    hide ReadBytes, Offset;
    if i == |recs| {
      assert recs[i..] == [];
    } else {
      assert RecordAt(f, recs, i);
      RecordsFromOffset(f, recs, i + 1);
      RecordsStep(f, Offset(recs, i), Offset(recs, |recs|), recs[i], recs[i + 1..]);
      assert recs[i..] == [recs[i]] + recs[i + 1..];
    }
  }

  /** A full scan returns exactly what was written. */
  lemma RecordsRoundTrip(recs: seq<Record>)
    requires Fits(recs)
    ensures RecordsFrom(SegmentBytes(recs), 0, |Body(recs)|) == Ok(recs)
  {
    SegmentIsReadable(recs);
    RecordsFromOffset(SegmentBytes(recs), recs, 0);
    OffsetEnd(recs);
    assert recs[0..] == recs;
  }

  /** The index one past the record at which a scan from `i` for `key` stops. */
  function StopIndex(recs: seq<Record>, i: nat, key: Bytes): (n: nat)
    requires i <= |recs|
    ensures i <= n <= |recs|
    decreases |recs| - i
  {
    if i == |recs| then i
    else if Less(recs[i].0, key) then StopIndex(recs, i + 1, key)
    else i + 1
  }

  lemma {:induction false} ScanFromOffset(f: Bytes, recs: seq<Record>, i: nat, key: Bytes)
    requires Readable(f, recs) && Ascending(recs) && i <= |recs|
    ensures ScanFor(f, Offset(recs, i), Offset(recs, |recs|), key) == Ok(Find(recs[i..], key))
    ensures ScanCost(f, Offset(recs, i), Offset(recs, |recs|), key) == StopIndex(recs, i, key) - i
    decreases |recs| - i
  {
    hide ReadBytes, Offset, Less;
    if i == |recs| {
      assert recs[i..] == [];
    } else {
      assert RecordAt(f, recs, i);
      assert recs[i..][1..] == recs[i + 1..];
      LessTotal(recs[i].0, key);
      LessIrreflexive(key);
      if Less(key, recs[i].0) {
        LessAsymmetric(key, recs[i].0);
        NoneFrom(recs, i, key);
      } else if recs[i].0 != key {
        ScanFromOffset(f, recs, i + 1, key);
      }
    }
  }

  lemma {:induction false} NoneFrom(recs: seq<Record>, i: nat, key: Bytes)
    requires Ascending(recs) && i < |recs| && Less(key, recs[i].0)
    ensures Find(recs[i..], key) == None
  {
    FindFinds(recs[i..], key);
    if Find(recs[i..], key).Some? {
      var j :| 0 <= j < |recs[i..]| && recs[i..][j].0 == key;
      if j > 0 {
        LessTransitive(key, recs[i].0, recs[i + j].0);
      }
      LessIrreflexive(key);
    }
  }

  lemma {:induction false} FindSkips(recs: seq<Record>, i: nat, key: Bytes)
    requires i <= |recs|
    requires forall j | 0 <= j < i :: recs[j].0 != key
    ensures Find(recs, key) == Find(recs[i..], key)
    decreases i
  {
    if i == 0 {
      assert recs[0..] == recs;
    } else {
      FindSkips(recs[1..], i - 1, key);
      assert recs[1..][i - 1..] == recs[i..];
    }
  }

  /** On an ascending index, the rank splits the entries into those below the key and the others. */
  lemma {:induction false} RankSplits(sparse: seq<(Bytes, nat)>, key: Bytes)
    requires Ascending(sparse)
    ensures forall j | 0 <= j < Rank(sparse, key) :: Less(sparse[j].0, key)
    ensures forall j | Rank(sparse, key) <= j < |sparse| :: !Less(sparse[j].0, key)
  {
    if sparse == [] {
    } else {
      if Less(sparse[0].0, key) {
        RankSplits(sparse[1..], key);
        forall j | 0 < j < |sparse|
          ensures sparse[j] == sparse[1..][j - 1]
        {
        }
        forall j | Rank(sparse, key) <= j < |sparse|
          ensures !Less(sparse[j].0, key)
        {
          assert sparse[j] == sparse[1..][j - 1];
        }
      } else {
        forall j | 0 <= j < |sparse|
          ensures !Less(sparse[j].0, key)
        {
          if j > 0 && Less(sparse[j].0, key) {
            LessTransitive(sparse[0].0, sparse[j].0, key);
          }
        }
      }
    }
  }

  lemma SparseAscends(recs: seq<Record>)
    requires Ascending(recs)
    ensures Ascending(SparseOf(recs))
  {
    var sparse := SparseOf(recs);
    forall i, j | 0 <= i < j < |sparse|
      ensures Less(sparse[i].0, sparse[j].0)
    {
      SparseEntry(recs, i);
      SparseEntry(recs, j);
    }
  }

  /** The block a lookup reads: no earlier record can match, and no later block can either. */
  lemma BlockOf(recs: seq<Record>, key: Bytes) returns (b: nat)
    requires Ascending(recs)
    ensures StartOf(SparseOf(recs), key).None? ==>
              forall j | 0 <= j < |recs| :: !Less(recs[j].0, key) && recs[j].0 != key
    ensures StartOf(SparseOf(recs), key).Some? ==>
              && STRIDE * b < |recs|
              && StartOf(SparseOf(recs), key) == Some(Offset(recs, STRIDE * b))
              && !Less(key, recs[STRIDE * b].0)
              && (forall j | 0 <= j < STRIDE * b :: Less(recs[j].0, key))
              && (STRIDE * b + STRIDE < |recs| ==> Less(key, recs[STRIDE * b + STRIDE].0))
  {
    var sparse := SparseOf(recs);
    var i := Rank(sparse, key);
    SparseAscends(recs);
    RankSplits(sparse, key);
    LessIrreflexive(key);
    var exact := i < |sparse| && sparse[i].0 == key;
    b := if exact || i == 0 then i else i - 1;
    SparseEntry(recs, b);
    SparseEntry(recs, b + 1);
    SparseEntry(recs, 0);
    if exact || i > 0 {
      if !exact {
        LessAsymmetric(sparse[b].0, key);
      }
      forall j | 0 <= j < STRIDE * b
        ensures Less(recs[j].0, key)
      {
        if !exact {
          LessTransitive(recs[j].0, recs[STRIDE * b].0, key);
        }
      }
      if STRIDE * b + STRIDE < |recs| {
        assert b + 1 < |sparse|;
        if !exact {
          LessTotal(key, sparse[b + 1].0);
        }
      }
    } else {
      forall j | 0 <= j < |recs|
        ensures !Less(recs[j].0, key) && recs[j].0 != key
      {
        assert |sparse| > 0;
        LessTotal(key, recs[0].0);
        if j > 0 {
          LessTransitive(key, recs[0].0, recs[j].0);
        }
        LessAsymmetric(key, recs[j].0);
      }
    }
  }

  /** A lookup in the file of `recs` is a lookup in `recs`, and decodes at most STRIDE + 1 records;
      `WithinStrideExactly` says when it needs the last of them. */
  lemma GetIsLookup(path: nat, recs: seq<Record>, key: Bytes)
    requires Fits(recs) && Ascending(recs)
    ensures GetFrom(SegmentBytes(recs), Segment(path, SparseOf(recs), |Body(recs)|), key) == Ok(Find(recs, key))
    ensures GetCost(SegmentBytes(recs), Segment(path, SparseOf(recs), |Body(recs)|), key) <= STRIDE + 1
  {
    hide ScanCost, ScanFor, SegmentBytes, SparseOf, Body, Rank, Less;
    var b := BlockOf(recs, key);
    if StartOf(SparseOf(recs), key).Some? {
      forall j | 0 <= j < STRIDE * b
        ensures recs[j].0 != key
      {
        LessAsymmetric(recs[j].0, key);
      }
      FindSkips(recs, STRIDE * b, key);
      SegmentIsReadable(recs);
      OffsetEnd(recs);
      ScanFromOffset(SegmentBytes(recs), recs, STRIDE * b, key);
      if STRIDE * b + STRIDE < |recs| {
        LessAsymmetric(key, recs[STRIDE * b + STRIDE].0);
        StopsBy(recs, STRIDE * b, STRIDE * b + STRIDE, key);
      }
    } else {
      FindSkips(recs, |recs|, key);
    }
  }

  lemma {:induction false} StopsBy(recs: seq<Record>, i: nat, j: nat, key: Bytes)
    requires i <= j < |recs| && !Less(recs[j].0, key)
    ensures StopIndex(recs, i, key) <= j + 1
    decreases j - i
  {
    if i < j {
      StopsBy(recs, i + 1, j, key);
    }
  }

  lemma {:induction false} StopsAt(recs: seq<Record>, i: nat, j: nat, key: Bytes)
    requires i <= j < |recs| && !Less(recs[j].0, key)
    requires forall x | i <= x < j :: Less(recs[x].0, key)
    ensures StopIndex(recs, i, key) == j + 1
    decreases j - i
  {
    if i < j {
      StopsAt(recs, i + 1, j, key);
    }
  }

  /** The bound is met: a key missing between the last record of a full block and the next block
      costs one record more than the stride. */
  lemma MissAtBlockEnd(path: nat, recs: seq<Record>, b: nat, key: Bytes)
    requires Fits(recs) && Ascending(recs)
    requires STRIDE * b + STRIDE < |recs|
    requires Less(recs[STRIDE * b + STRIDE - 1].0, key) && Less(key, recs[STRIDE * b + STRIDE].0)
    ensures GetCost(SegmentBytes(recs), Segment(path, SparseOf(recs), |Body(recs)|), key) == STRIDE + 1
  {
    hide ScanCost, SegmentBytes, SparseOf, Body, Rank, Less;
    var next := STRIDE * b + STRIDE;
    var c := BlockOf(recs, key);
    LessAsymmetric(key, recs[next].0);
    LessAsymmetric(recs[next - 1].0, key);
    forall x | 0 <= x < next
      ensures Less(recs[x].0, key)
    {
      if x < next - 1 {
        LessTransitive(recs[x].0, recs[next - 1].0, key);
      }
    }
    assert Less(recs[0].0, key);
    assert StartOf(SparseOf(recs), key).Some?;
    if c < b {
      LessAsymmetric(key, recs[STRIDE * c + STRIDE].0);
    }
    assert c == b;
    SegmentIsReadable(recs);
    OffsetEnd(recs);
    ScanFromOffset(SegmentBytes(recs), recs, STRIDE * b, key);
    StopsAt(recs, STRIDE * b, next, key);
  }

  /** The key falls between the last record of full block `b` and the first of the next. */
  ghost predicate EndsBlock(recs: seq<Record>, key: Bytes, b: nat)
  {
    && STRIDE * b + STRIDE < |recs|
    && Less(recs[STRIDE * b + STRIDE - 1].0, key) && Less(key, recs[STRIDE * b + STRIDE].0)
  }

  ghost predicate BetweenBlocks(recs: seq<Record>, key: Bytes)
  {
    exists b: nat :: EndsBlock(recs, key, b)
  }

  lemma {:induction false} StopsLater(recs: seq<Record>, i: nat, j: nat, key: Bytes)
    requires i <= j < |recs| && StopIndex(recs, i, key) > j + 1
    ensures Less(recs[j].0, key)
    decreases j - i
  {
    if i < j {
      StopsLater(recs, i + 1, j, key);
    }
  }

  /** A lookup stays within the stride exactly when its key does not fall between two blocks; if it
      does, it costs one record more. */
  lemma WithinStrideExactly(path: nat, recs: seq<Record>, key: Bytes)
    requires Fits(recs) && Ascending(recs)
    ensures var cost := GetCost(SegmentBytes(recs), Segment(path, SparseOf(recs), |Body(recs)|), key);
            && (cost <= STRIDE <==> !BetweenBlocks(recs, key))
            && (cost == STRIDE + 1 <==> BetweenBlocks(recs, key))
  {
    hide ScanCost, SegmentBytes, SparseOf, Body, Rank, Less, StopIndex;
    GetIsLookup(path, recs, key);
    forall b: nat | EndsBlock(recs, key, b)
      ensures GetCost(SegmentBytes(recs), Segment(path, SparseOf(recs), |Body(recs)|), key) == STRIDE + 1
    {
      MissAtBlockEnd(path, recs, b, key);
    }
    var b := BlockOf(recs, key);
    if StartOf(SparseOf(recs), key).Some? {
      SegmentIsReadable(recs);
      OffsetEnd(recs);
      ScanFromOffset(SegmentBytes(recs), recs, STRIDE * b, key);
      if StopIndex(recs, STRIDE * b, key) == STRIDE * b + STRIDE + 1 {
        StopsLater(recs, STRIDE * b, STRIDE * b + STRIDE - 1, key);
        assert EndsBlock(recs, key, b);
      }
    }
  }

  // ----- prefix scans -----

  /** One step of a prefix scan over a record that is below the prefix or starts with it. */
  lemma {:induction false} PrefixStep(f: Bytes, at: nat, end: nat, r: Record, prefix: Bytes, rest: seq<Record>)
    requires at < end
    requires ReadBytes(f, at) == Ok(r.0) && ReadBytes(f, at + 4 + |r.0|) == Ok(r.1)
    requires Less(r.0, prefix) || prefix <= r.0
    requires PrefixFrom(f, at + 8 + |r.0| + |r.1|, end, prefix) == Ok(rest)
    ensures PrefixFrom(f, at, end, prefix) == Ok((if prefix <= r.0 then [r] else []) + rest)
  {
    hide ReadBytes, Less;
    if prefix <= r.0 {
      ExtensionNotLess(prefix, r.0);
    } else {
      assert [] + rest == rest;
    }
    assert r == (r.0, r.1);
  }

  lemma {:induction false} PrefixFromOffset(f: Bytes, recs: seq<Record>, i: nat, prefix: Bytes)
    requires Readable(f, recs) && Ascending(recs) && i <= |recs|
    ensures PrefixFrom(f, Offset(recs, i), Offset(recs, |recs|), prefix) == Ok(WithPrefix(recs[i..], prefix))
    decreases |recs| - i
  {
    hide ReadBytes, Offset, Less;
    if i == |recs| {
      assert recs[i..] == [];
    } else {
      assert RecordAt(f, recs, i);
      assert recs[i..][1..] == recs[i + 1..];
      if Less(recs[i].0, prefix) || prefix <= recs[i].0 {
        PrefixFromOffset(f, recs, i + 1, prefix);
        PrefixStep(f, Offset(recs, i), Offset(recs, |recs|), recs[i], prefix, WithPrefix(recs[i + 1..], prefix));
      } else {
        forall j | i < j < |recs|
          ensures !(prefix <= recs[j].0)
        {
          PastThePrefix(prefix, recs[i].0, recs[j].0);
        }
        NoneWithPrefix(recs[i..], prefix);
      }
    }
  }

  lemma {:induction false} NoneWithPrefix<V>(s: Entries<V>, prefix: Bytes)
    requires forall j | 0 <= j < |s| :: !(prefix <= s[j].0)
    ensures WithPrefix(s, prefix) == []
  {
    if s == [] {
    } else {
      NoneWithPrefix(s[1..], prefix);
    }
  }

  lemma {:induction false} PrefixSkips<V>(s: Entries<V>, i: nat, prefix: Bytes)
    requires i <= |s|
    requires forall j | 0 <= j < i :: !(prefix <= s[j].0)
    ensures WithPrefix(s, prefix) == WithPrefix(s[i..], prefix)
    decreases i
  {
    if i == 0 {
      assert s[0..] == s;
    } else {
      PrefixSkips(s[1..], i - 1, prefix);
      assert s[1..][i - 1..] == s[i..];
    }
  }

  /** A prefix scan of the file of `recs` returns exactly the records with that prefix, in order. */
  lemma ScanPrefixIsFilter(path: nat, recs: seq<Record>, prefix: Bytes)
    requires Fits(recs) && Ascending(recs)
    ensures ScanPrefixFrom(SegmentBytes(recs), Segment(path, SparseOf(recs), |Body(recs)|), prefix)
            == Ok(WithPrefix(recs, prefix))
  {
    hide SegmentBytes, Body, Rank, Less, PrefixFrom;
    SparseEntry(recs, 0);
    SegmentIsReadable(recs);
    OffsetEnd(recs);
    var f := SegmentBytes(recs);
    if recs != [] {
      var b := BlockOf(recs, prefix);
      if StartOf(SparseOf(recs), prefix).Some? {
        forall j | 0 <= j < STRIDE * b
          ensures !(prefix <= recs[j].0)
        {
          if prefix <= recs[j].0 {
            ExtensionNotLess(prefix, recs[j].0);
          }
        }
        PrefixSkips(recs, STRIDE * b, prefix);
        PrefixFromOffset(f, recs, STRIDE * b, prefix);
      } else {
        PrefixFromOffset(f, recs, 0, prefix);
        assert recs[0..] == recs;
      }
    }
  }
}
