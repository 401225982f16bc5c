/** Whole runs of the store against a plain finite map, and what a crash at any moment recovers. */
module StoreRuns {
  import opened Bytes
  import opened Options
  import opened OrderedMap
  import opened SegmentFormat
  import opened HuskLayers
  import opened ColdStore

  datatype Op =
    | Put(key: Bytes, value: Bytes)
    | Delete(key: Bytes)
    | Flush
    | Compact
    | Restart   // flush, drop the handle, and open the directory again
    | Get(key: Bytes)
    | ScanPrefix(prefix: Bytes)
    | LiveEntries

  datatype Answer = Done | Found(value: Option<Bytes>) | Listed(entries: Entries<Bytes>)

  /** The last-write-wins map. */
  ghost function Apply(m: map<Bytes, Bytes>, op: Op): map<Bytes, Bytes>
  {
    match op
    case Put(k, v) => m[k := v]
    case Delete(k) => m - {k}
    case _ => m
  }

  ghost function ApplyAll(m: map<Bytes, Bytes>, ops: seq<Op>): map<Bytes, Bytes>
  {
    if ops == [] then m else Apply(ApplyAll(m, ops[..|ops| - 1]), ops[|ops| - 1])
  }

  /** What the map answers. */
  ghost predicate Answers(m: map<Bytes, Bytes>, op: Op, a: Answer)
  {
    match op
    case Get(k) => a == Found(Lookup(m, k))
    case ScanPrefix(p) => a.Listed? && Ascending(a.entries) && ToMap(a.entries) == Restrict(m, p)
    case LiveEntries => a.Listed? && Ascending(a.entries) && ToMap(a.entries) == m
    case _ => a == Done
  }

  /** Each answer is what the map, after the operations before it, answers. */
  ghost predicate AllAnswered(m: map<Bytes, Bytes>, ops: seq<Op>, answers: seq<Answer>)
  {
    && |answers| <= |ops|
    && forall i | 0 <= i < |answers| :: Answers(ApplyAll(m, ops[..i]), ops[i], answers[i])
  }

  lemma ApplyNext(m: map<Bytes, Bytes>, ops: seq<Op>, n: nat)
    requires n < |ops|
    ensures ApplyAll(m, ops[..n + 1]) == Apply(ApplyAll(m, ops[..n]), ops[n])
  {
    assert ops[..n + 1][..n] == ops[..n];
  }

  lemma AnsweredNext(m: map<Bytes, Bytes>, ops: seq<Op>, answers: seq<Answer>, a: Answer)
    requires AllAnswered(m, ops, answers) && |answers| < |ops|
    requires Answers(ApplyAll(m, ops[..|answers|]), ops[|answers|], a)
    ensures AllAnswered(m, ops, answers + [a])
  {
    hide Answers, ApplyAll;
  }

  lemma NothingApplied(m: map<Bytes, Bytes>, ops: seq<Op>)
    ensures ApplyAll(m, ops[..0]) == m && AllAnswered(m, ops, [])
  {
  }

  /** The run writes only keys in `keys`, and no length outgrows its four-byte field. */
  ghost predicate Writable(ops: seq<Op>, keys: set<Bytes>)
  {
    forall i | 0 <= i < |ops| ::
      match ops[i]
      case Put(k, v) => k in keys && SlotFits(k, Some(v))
      case Delete(k) => k in keys && SlotFits(k, None)
      case _ => true
  }

  /** The files recover to the map after the first `mark` operations. */
  ghost predicate DurableAt(files: Files, m: map<Bytes, Bytes>, ops: seq<Op>, mark: nat)
  {
    mark <= |ops| && GoodDisk(files) && Recovered(files) == ApplyAll(m, ops[..mark])
  }

  /** `marks[i]` says how many operations the disk state at `from + i` has taken in; never fewer than
      an earlier state. */
  ghost predicate PrefixDurable(history: seq<Files>, from: nat, m: map<Bytes, Bytes>, ops: seq<Op>, marks: seq<nat>)
  {
    && |history| == from + |marks|
    && (forall i | 0 <= i < |marks| :: DurableAt(history[from + i], m, ops, marks[i]))
    && (forall i, j | 0 <= i < j < |marks| :: marks[i] <= marks[j])
  }

  /** Operations that leave nothing in memory only. */
  predicate Forces(op: Op)
  {
    op.Flush? || op.Compact? || op.Restart?
  }

  /** `ends[n]` is how many disk states there are once operation `n` is done: the states after the first
      `from` that have taken in at most `n + 1` operations. If the operation forces, the disk then
      recovers to the map after it. */
  ghost predicate ForcedAt(history: seq<Files>, from: nat, m: map<Bytes, Bytes>, ops: seq<Op>, marks: seq<nat>,
                           ends: seq<nat>, n: nat)
    requires n < |ends| <= |ops|
  {
    && 0 < from <= ends[n] <= |history|
    && (forall i | 0 <= i < |marks| :: from + i < ends[n] <==> marks[i] <= n + 1)
    && (Forces(ops[n]) ==> DurableAt(history[ends[n] - 1], m, ops, n + 1))
  }

  ghost predicate ForcedDurable(history: seq<Files>, from: nat, m: map<Bytes, Bytes>, ops: seq<Op>,
                                marks: seq<nat>, ends: seq<nat>)
  {
    && |ends| <= |ops|
    && forall n | 0 <= n < |ends| :: ForcedAt(history, from, m, ops, marks, ends, n)
  }

  /** For every sequence of operations, re-opens included, the store answers exactly as the map does;
      and whenever the run is cut short by a crash, the files left behind recover to the map after
      some prefix of the operations, never an earlier prefix than before, and none before the last
      flush, compaction or re-open that was done. */
  method Run(disk: Disk, bufferLimit: nat, cacheCap: nat, ops: seq<Op>, ghost keys: set<Bytes>)
    returns (store: HuskStore, answers: seq<Answer>, ghost marks: seq<nat>, ghost ends: seq<nat>)
    requires GoodDisk(disk.files) && disk.Current() && Recovered(disk.files).Keys <= keys
    requires |keys| < MAX_RECORDS && Writable(ops, keys)
    modifies disk
    ensures store.Valid() && store.cache.cap == cacheCap
    ensures store.View() == ApplyAll(old(Recovered(disk.files)), ops)
    ensures |answers| == |ops| && AllAnswered(old(Recovered(disk.files)), ops, answers)
    ensures old(disk.history) <= disk.history
    ensures PrefixDurable(disk.history, |old(disk.history)|, old(Recovered(disk.files)), ops, marks)
    ensures |ends| == |ops|
    ensures ForcedDurable(disk.history, |old(disk.history)|, old(Recovered(disk.files)), ops, marks, ends)
    ensures ops != [] && Forces(ops[|ops| - 1]) ==>
              DurableAt(disk.files, old(Recovered(disk.files)), ops, |ops|)
  {
    hide GoodDisk, Recovered, Merged, Live, Matches, ToMap, Ascending, AllFit, Coherent, SlotFits, Insert,
         Restrict, Answers, Apply, KeysIn, PrefixDurable, RecoversTo, Writable, HuskStore.Valid, ApplyAll,
         AllAnswered, ForcedDurable, DurableAt;
    ghost var start := Recovered(disk.files);
    var r := HuskStore.Open(disk, bufferLimit, cacheCap);
    store := r.value;
    answers, marks, ends := [], [], [];
    KeysOfEmpty(keys);
    NothingYet(disk.history, start, ops);
    NothingApplied(start, ops);
    NothingForced(disk.history, start, ops);
    for n := 0 to |ops|
      invariant fresh(store) && fresh(store.cache) && store.disk == disk && store.cache.cap == cacheCap
      invariant store.Valid()
      invariant store.View() == ApplyAll(start, ops[..n])
      invariant KeysIn(store.buffer, keys) && ApplyAll(start, ops[..n]).Keys <= keys
      invariant |answers| == n && AllAnswered(start, ops, answers)
      invariant old(disk.history) <= disk.history
      invariant PrefixDurable(disk.history, |old(disk.history)|, start, ops, marks)
      invariant forall i | 0 <= i < |marks| :: marks[i] <= n
      invariant |ends| == n && disk.Current() && |disk.history| == |old(disk.history)| + |marks|
      invariant ForcedDurable(disk.history, |old(disk.history)|, start, ops, marks, ends)
      invariant n > 0 && Forces(ops[n - 1]) ==> DurableAt(disk.files, start, ops, n)
    {
      ghost var before, marks0 := disk.history, marks;
      ApplyNext(start, ops, n);
      var a: Answer;
      WritableAt(ops, keys, n);
      store, a := Step(store, ops[n], bufferLimit, keys);
      StillDurable(before, disk.history, |old(disk.history)|, start, ops, marks, n + 1);
      marks := marks + Repeated(n + 1, |disk.history| - |before|);
      if Forces(ops[n]) {
        ForcedNow(disk.files, start, ops, n + 1);
      }
      StillForced(before, disk.history, disk.files, |old(disk.history)|, start, ops, marks0, ends);
      ends := ends + [|disk.history|];
      AnsweredNext(start, ops, answers, a);
      answers := answers + [a];
    }
    assert ops[..|ops|] == ops;
  }

  /** With nothing in the memtable the disk says it all. */
  lemma DiskIsView(store: HuskStore)
    requires store.Valid() && store.buffer == []
    ensures GoodDisk(store.disk.files) && Recovered(store.disk.files) == store.View()
  {
    hide GoodDisk, Recovered, Live, Matches, ToMap, Ascending, AllFit, Coherent, Merged;
    MatchedDisk(store.segments, store.disk.files, store.nextSeq);
    NoMemtable(store.buffer, Merged(store.disk.files, store.nextSeq));
  }

  /** Flush, drop the handle, and open the directory again. */
  method Reopen(store: HuskStore, bufferLimit: nat) returns (next: HuskStore)
    requires store.Valid()
    modifies store, store.disk
    ensures fresh(next) && fresh(next.cache)
    ensures next.disk == store.disk && next.cache.cap == store.cache.cap
    ensures next.Valid() && next.buffer == [] && next.View() == old(store.View())
    ensures GoodDisk(next.disk.files) && Recovered(next.disk.files) == next.View()
    ensures old(store.disk.history) <= store.disk.history
    ensures RecoversTo(store.disk.history, |old(store.disk.history)|, next.View())
  {
    hide GoodDisk, Recovered, Merged, Live, Matches, ToMap, Ascending, AllFit, Coherent;
    store.Flush();
    DiskIsView(store);
    var opening := HuskStore.Open(store.disk, bufferLimit, store.cache.cap);
    next := opening.value;
  }

  /** One operation on the store, as the map would have it. */
  method Step(store: HuskStore, op: Op, bufferLimit: nat, ghost keys: set<Bytes>)
    returns (next: HuskStore, a: Answer)
    requires store.Valid() && KeysIn(store.buffer, keys) && store.View().Keys <= keys && |keys| < MAX_RECORDS
    requires Writable([op], keys)
    modifies store, store.disk, store.cache
    ensures next == store || (fresh(next) && fresh(next.cache))
    ensures next.disk == store.disk && next.cache.cap == store.cache.cap
    ensures next.Valid() && KeysIn(next.buffer, keys) && next.View().Keys <= keys
    ensures next.View() == Apply(old(store.View()), op)
    ensures Answers(old(store.View()), op, a)
    ensures old(store.disk.history) <= store.disk.history
    ensures RecoversTo(store.disk.history, |old(store.disk.history)|, next.View())
    ensures store.disk.Current()
    ensures Forces(op) ==> GoodDisk(store.disk.files) && Recovered(store.disk.files) == next.View()
  {
    hide GoodDisk, Recovered, Merged, Live, Matches, ToMap, Ascending, AllFit, Coherent, SlotFits, Insert, Restrict;
    next, a := store, Done;
    assert op == [op][0];
    FewKeys(store.buffer, keys);
    Smaller(store.View().Keys, keys);
    KeysOfEmpty(keys);
    match op {
      case Put(k, v) =>
        InsertedKeys(store.buffer, k, Some(v), keys);
        store.Put(k, v);
      case Delete(k) =>
        InsertedKeys(store.buffer, k, None, keys);
        store.Delete(k);
      case Flush =>
        store.Flush();
        DiskIsView(store);
      case Compact =>
        store.Compact();
        DiskIsView(store);
      case Restart =>
        next := Reopen(store, bufferLimit);
      case Get(k) =>
        var v := store.Get(k);
        a := Found(v);
      case ScanPrefix(p) =>
        var entries := store.ScanPrefix(p);
        a := Listed(entries);
      case LiveEntries =>
        var entries := store.LiveEntries();
        a := Listed(entries);
    }
  }

  ghost predicate KeysIn(buffer: Entries<Slot>, keys: set<Bytes>)
  {
    forall e | e in buffer :: e.0 in keys
  }

  lemma KeysOfEmpty(keys: set<Bytes>)
    ensures KeysIn([], keys)
  {
  }

  lemma InsertedKeys(buffer: Entries<Slot>, k: Bytes, slot: Slot, keys: set<Bytes>)
    requires Ascending(buffer) && KeysIn(buffer, keys) && k in keys
    ensures KeysIn(Insert(buffer, k, slot), keys)
  {
    hide Ascending;
    InsertEntries(buffer, k, slot);
  }

  lemma FewKeys(buffer: Entries<Slot>, keys: set<Bytes>)
    requires Ascending(buffer) && KeysIn(buffer, keys)
    ensures |buffer| <= |keys|
  {
    hide Ascending;
    OneEntryPerKey(buffer);
    MapHolds(buffer);
    forall k | k in ToMap(buffer)
      ensures k in keys
    {
      var e := (k, ToMap(buffer)[k]);
      assert e in buffer;
    }
    Smaller(ToMap(buffer).Keys, keys);
    assert |ToMap(buffer)| == |ToMap(buffer).Keys|;
  }

  lemma {:induction false} Smaller<T>(a: set<T>, b: set<T>)
    requires a <= b
    ensures |a| <= |b|
  {
    if x :| x in a {
      Smaller(a - {x}, b - {x});
    }
  }

  lemma NoMemtable(buffer: Entries<Slot>, newest: map<Bytes, Slot>)
    requires buffer == []
    ensures newest + ToMap(buffer) == newest
  {
  }

  lemma WritableAt(ops: seq<Op>, keys: set<Bytes>, n: nat)
    requires Writable(ops, keys) && n < |ops|
    ensures Writable([ops[n]], keys)
  {
  }

  lemma NothingYet(history: seq<Files>, m: map<Bytes, Bytes>, ops: seq<Op>)
    ensures PrefixDurable(history, |history|, m, ops, [])
  {
  }

  lemma NothingForced(history: seq<Files>, m: map<Bytes, Bytes>, ops: seq<Op>)
    ensures ForcedDurable(history, |history|, m, ops, [], [])
  {
  }

  lemma ForcedNow(files: Files, m: map<Bytes, Bytes>, ops: seq<Op>, n: nat)
    requires n <= |ops| && GoodDisk(files) && Recovered(files) == ApplyAll(m, ops[..n])
    ensures DurableAt(files, m, ops, n)
  {
  }

  /** One more operation adds states with its own mark, after the ends of the operations before it. */
  lemma StillForced(before: seq<Files>, after: seq<Files>, files: Files, from: nat, m: map<Bytes, Bytes>,
                    ops: seq<Op>, marks: seq<nat>, ends: seq<nat>)
    requires ForcedDurable(before, from, m, ops, marks, ends) && before <= after && |ends| < |ops|
    requires 0 < from && |before| == from + |marks| && after != [] && after[|after| - 1] == files
    requires forall i | 0 <= i < |marks| :: marks[i] <= |ends|
    requires Forces(ops[|ends|]) ==> DurableAt(files, m, ops, |ends| + 1)
    ensures ForcedDurable(after, from, m, ops, marks + Repeated(|ends| + 1, |after| - |before|), ends + [|after|])
  {
    hide DurableAt;
    var marks', ends' := marks + Repeated(|ends| + 1, |after| - |before|), ends + [|after|];
    forall n | 0 <= n < |ends'|
      ensures ForcedAt(after, from, m, ops, marks', ends', n)
    {
      if n < |ends| {
        assert ForcedAt(before, from, m, ops, marks, ends, n);
        forall i | 0 <= i < |marks'|
          ensures from + i < ends'[n] <==> marks'[i] <= n + 1
        {
          if i < |marks| {
            assert marks'[i] == marks[i];
          } else {
            assert marks'[i] == |ends| + 1;
          }
        }
        assert after[ends[n] - 1] == before[ends[n] - 1];
      }
    }
  }

  ghost function Repeated(n: nat, count: nat): (s: seq<nat>)
    ensures |s| == count && forall i | 0 <= i < count :: s[i] == n
  {
    seq(count, i => n)
  }

  /** The states one more operation adds all recover to the map after it. */
  lemma StillDurable(before: seq<Files>, after: seq<Files>, from: nat, m: map<Bytes, Bytes>, ops: seq<Op>,
                     marks: seq<nat>, n: nat)
    requires PrefixDurable(before, from, m, ops, marks) && before <= after && n <= |ops|
    requires forall i | 0 <= i < |marks| :: marks[i] <= n
    requires RecoversTo(after, |before|, ApplyAll(m, ops[..n]))
    ensures PrefixDurable(after, from, m, ops, marks + Repeated(n, |after| - |before|))
  {
    hide GoodDisk, Recovered, ApplyAll;
    var marks' := marks + Repeated(n, |after| - |before|);
    assert |marks'| == |after| - from;
    forall i | 0 <= i < |marks'|
      ensures marks'[i] <= n && DurableAt(after[from + i], m, ops, marks'[i])
    {
      if i < |marks| {
        assert marks'[i] == marks[i] && after[from + i] == before[from + i];
        assert DurableAt(before[from + i], m, ops, marks[i]);
      } else {
        assert marks'[i] == n;
        RecoversAt(after, |before|, ApplyAll(m, ops[..n]), from + i);
      }
    }
    forall i, j | 0 <= i < j < |marks'|
      ensures marks'[i] <= marks'[j]
    {
      if j < |marks| {
        assert marks'[i] == marks[i] && marks'[j] == marks[j];
      } else {
        assert marks'[j] == n;
      }
    }
  }

  lemma RecoversAt(history: seq<Files>, from: nat, m: map<Bytes, Bytes>, i: nat)
    requires RecoversTo(history, from, m) && from <= i < |history|
    ensures GoodDisk(history[i]) && Recovered(history[i]) == m
  {
  }

  // ----- when deletions fail -----

  /** `compact` ignores a deletion that fails. If the survivors are not an oldest-first suffix, the
      recovered map is still right exactly when they bring no key back to life by themselves;
      `FailuresHarmlessExactly` says it of the files as they are before compacting. */
  lemma SurvivorsExact(files: Files, m: nat, live: Entries<Bytes>, survivors: Files)
    requires MergedFrom(files, m, live) && Below(survivors, m)
    requires forall p | p in survivors :: p in files && survivors[p] == files[p]
    ensures var left := AfterMerge(survivors, m, live);
            Recovered(left) == Recovered(files)
            <==> Live(Merged(survivors, m)).Keys <= Live(Merged(files, m)).Keys
  {
    hide GoodFile, Merged, Layer, Less, SegmentBytes, Ascending, EncodeSlots, AsSlots, SlotsOf, Fits, Tagged;
    MergedTop(files, m);
    var view, old', slots := Live(Merged(files, m)), Merged(survivors, m), ToMap(AsSlots(live));
    AsSlotsMap(live);
    if live == [] {
      EmptyLive(live);
      MergedTop(survivors, m);
    } else {
      LiveParts(files, m, live);
      WrittenIsGood(EncodeSlots(AsSlots(live)));
      WrittenLayer(EncodeSlots(AsSlots(live)));
      RecoveredPush(survivors, m, SegmentBytes(EncodeSlots(AsSlots(live))));
      ShadowedKeys(old', slots, view);
    }
  }

  /** Some file below `m` holds a value, rather than a tombstone, for a key that is no longer live. */
  ghost predicate HoldsDeadValue(files: Files, m: nat, p: nat, k: Bytes)
    requires p in files
  {
    k in Live(Layer(files[p])) && k !in Live(Merged(files, m))
  }

  /** The deletions may fail as they like: whatever subset of the old files stays, the recovered map is
      the same. */
  ghost predicate AnySurvivorsRecover(files: Files, m: nat, live: Entries<Bytes>)
  {
    forall survivors: Files | forall p | p in survivors :: p in files && survivors[p] == files[p] ::
      Recovered(AfterMerge(survivors, m, live)) == Recovered(files)
  }

  /** What can be known before compacting: failing deletions are harmless, all of them, exactly when
      no old file holds a value for a key that is no longer live. */
  lemma FailuresHarmlessExactly(files: Files, m: nat, live: Entries<Bytes>)
    requires MergedFrom(files, m, live)
    ensures AnySurvivorsRecover(files, m, live) <==> forall p, k | p in files :: !HoldsDeadValue(files, m, p, k)
  {
    hide MergedFrom, Merged, Layer, Recovered, AfterMerge, Live;
    MergedFromBelow(files, m, live);
    if AnySurvivorsRecover(files, m, live) {
      forall p, k | p in files
        ensures !HoldsDeadValue(files, m, p, k)
      {
        var only := map[p := files[p]];
        SurvivorsExact(files, m, live, only);
        OneLayer(p, files[p], only);
        MergedGap(only, p + 1, m);
      }
    }
    if forall p, k | p in files :: !HoldsDeadValue(files, m, p, k) {
      forall survivors: Files | forall p | p in survivors :: p in files && survivors[p] == files[p]
        ensures Recovered(AfterMerge(survivors, m, live)) == Recovered(files)
      {
        forall k | k in Live(Merged(survivors, m))
          ensures k in Live(Merged(files, m))
        {
          var p := HeldBy(survivors, m, k);
          assert !HoldsDeadValue(files, m, p, k);
        }
        SurvivorsExact(files, m, live, survivors);
      }
    }
  }

  lemma MergedFromBelow(files: Files, m: nat, live: Entries<Bytes>)
    requires MergedFrom(files, m, live)
    ensures Below(files, m)
  {
  }

  /** A merged value is some file's value. */
  lemma {:induction false} HeldBy(files: Files, n: nat, k: Bytes) returns (p: nat)
    requires k in Live(Merged(files, n))
    ensures p in files && k in Live(Layer(files[p]))
  {
    hide Layer;
    if n - 1 in files && k in Layer(files[n - 1]) {
      p := n - 1;
    } else {
      p := HeldBy(files, n - 1, k);
    }
  }

  lemma ShadowedKeys(under: map<Bytes, Slot>, top: map<Bytes, Slot>, view: map<Bytes, Bytes>)
    requires forall k :: k in top <==> k in view
    requires forall k | k in view :: top[k] == Some(view[k])
    ensures Live(under + top) == view <==> Live(under).Keys <= view.Keys
  {
    if Live(under + top) == view {
      forall k | k in Live(under)
        ensures k in view
      {
        assert k !in top ==> k in Live(under + top);
      }
    }
  }

  /** A single segment is not compacted: a key deleted in an empty store leaves a tombstone that
      compaction does not drop. */
  method LoneTombstoneStays(store: HuskStore, key: Bytes)
    requires store.Valid() && store.segments == [] && store.buffer == [] && store.View() == map[]
    requires SlotFits(key, None)
    modifies store, store.disk, store.cache
    ensures store.Valid() && store.View() == map[] && |store.segments| <= 1
    ensures !NoTombstones(Merged(store.disk.files, store.nextSeq))
  {
    hide GoodDisk, Recovered, Merged, Live, Matches, ToMap, Ascending, AllFit, Coherent, SlotFits, Insert;
    ghost var m := Merged(store.disk.files, store.nextSeq) + ToMap(store.buffer);
    store.Delete(key);
    assert store.View() == map[];
    assert key in m[key := None] && m[key := None][key] == None;
    store.Compact();
  }

  lemma OneSlotFile(k: Bytes, slot: Slot) returns (f: Bytes)
    requires SlotFits(k, slot)
    ensures GoodFile(f) && Layer(f) == map[k := slot]
  {
    hide SegmentBytes, EncodeSlots, Fits, SlotsOf;
    var s: Entries<Slot> := [(k, slot)];
    assert s[..0] == [] && ToMap(s) == map[k := slot];
    EncodedSlots(s);
    WrittenIsGood(EncodeSlots(s));
    WrittenLayer(EncodeSlots(s));
    f := SegmentBytes(EncodeSlots(s));
  }

  /** It can go wrong: a key written, then deleted, in two segments; compaction finds nothing live,
      fails to delete the older file and deletes the newer one; the next open finds the key alive. */
  lemma FailedDeletionRevives() returns (files: Files, survivors: Files)
    ensures GoodDisk(files) && Recovered(files) == map[]
    ensures survivors == files - {1} && GoodDisk(survivors)
    ensures Recovered(survivors) == map[[7] := [9]]
  {
    hide SegmentBytes, EncodeSlots, GoodFile, Layer;
    var k: Bytes, v: Bytes := [7], [9];
    var f0 := OneSlotFile(k, Some(v));
    var f1 := OneSlotFile(k, None);
    files, survivors := map[0 := f0, 1 := f1], map[0 := f0];
    OneLayer(0, f0, survivors);
    MergedTop(survivors, 1);
    RecoveredPush(survivors, 1, f1);
    assert files == survivors[1 := f1];
  }
}
