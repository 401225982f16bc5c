/** A `BTreeMap` keyed by byte strings, kept as the strictly ascending sequence it iterates over. */
module OrderedMap {
  import opened Bytes
  import opened Options

  type Entries<V> = seq<(Bytes, V)>

  predicate Ascending<V>(s: Entries<V>)
  {
    forall i, j | 0 <= i < j < |s| :: Less(s[i].0, s[j].0)
  }

  /** The finite map a sequence of writes leaves behind: the last write of a key wins. */
  ghost function ToMap<V>(s: Entries<V>): map<Bytes, V>
  {
    if s == [] then map[] else ToMap(s[..|s| - 1])[s[|s| - 1].0 := s[|s| - 1].1]
  }

  function Find<V>(s: Entries<V>, k: Bytes): Option<V>
  {
    if s == [] then None else if s[0].0 == k then Some(s[0].1) else Find(s[1..], k)
  }

  function Insert<V>(s: Entries<V>, k: Bytes, v: V): Entries<V>
  {
    if s == [] then [(k, v)]
    else if Less(s[0].0, k) then [s[0]] + Insert(s[1..], k, v)
    else if s[0].0 == k then [(k, v)] + s[1..]
    else [(k, v)] + s
  }

  function Remove<V>(s: Entries<V>, k: Bytes): Entries<V>
  {
    if s == [] then []
    else if s[0].0 == k then s[1..]
    else [s[0]] + Remove(s[1..], k)
  }

  ghost function Lookup<K, V>(m: map<K, V>, k: K): Option<V>
  {
    if k in m then Some(m[k]) else None
  }

  /** For an ascending sequence, the map holds exactly its entries. */
  lemma {:induction false} MapHolds<V(!new)>(s: Entries<V>)
    requires Ascending(s)
    ensures forall e: (Bytes, V) :: e in s <==> e.0 in ToMap(s) && ToMap(s)[e.0] == e.1
  {
    if s == [] {
    } else {
      var n := |s| - 1;
      MapHolds(s[..n]);
      assert s == s[..n] + [s[n]];
      forall e: (Bytes, V)
        ensures e in s <==> e.0 in ToMap(s) && ToMap(s)[e.0] == e.1
      {
        assert e in s <==> e in s[..n] || e == s[n];
        if e in s[..n] {
          KeysDiffer(s, s[n], e);
        }
      }
    }
  }

  lemma KeysDiffer<V(!new)>(s: Entries<V>, last: (Bytes, V), e: (Bytes, V))
    requires Ascending(s) && s != [] && last == s[|s| - 1]
    requires e in s[..|s| - 1]
    ensures Less(e.0, last.0) && e.0 != last.0
  {
    var i :| 0 <= i < |s| - 1 && s[i] == e;
    LessAsymmetric(s[i].0, last.0);
  }

  /** Two ascending sequences with the same map are the same sequence. */
  lemma {:induction false} Canonical<V(!new)>(s: Entries<V>, t: Entries<V>)
    requires Ascending(s) && Ascending(t)
    requires forall e: (Bytes, V) :: e in s <==> e in t
    ensures s == t
    decreases |s|
  {
    if s == [] {
    } else {
      assert s[0] in t;
    }
    if t == [] {
    } else {
      assert t[0] in s;
    }
    if s != [] && t != [] {
      SameFirst(s, t);
      assert s == [s[0]] + s[1..] && t == [t[0]] + t[1..];
      forall e: (Bytes, V)
        ensures e in s[1..] <==> e in t[1..]
      {
        FirstIsLeast(s, e);
        FirstIsLeast(t, e);
        assert e in s <==> e == s[0] || e in s[1..];
        assert e in t <==> e == t[0] || e in t[1..];
      }
      Canonical(s[1..], t[1..]);
    }
  }

  lemma FirstIsLeast<V(!new)>(s: Entries<V>, e: (Bytes, V))
    requires Ascending(s) && s != []
    ensures e in s[1..] ==> Less(s[0].0, e.0) && s[0].0 != e.0
  {
    if e in s[1..] {
      var i :| 0 < i < |s| && s[i] == e;
      LessAsymmetric(s[0].0, s[i].0);
    }
  }

  lemma SameFirst<V(!new)>(s: Entries<V>, t: Entries<V>)
    requires Ascending(s) && Ascending(t) && s != [] && t != []
    requires forall e: (Bytes, V) :: e in s <==> e in t
    ensures s[0] == t[0]
  {
    assert s == [s[0]] + s[1..] && t == [t[0]] + t[1..];
    FirstIsLeast(s, t[0]);
    FirstIsLeast(t, s[0]);
    assert s[0] in t && t[0] in s;
    if s[0] != t[0] {
      LessAsymmetric(s[0].0, t[0].0);
    }
  }

  /** The same, said of the maps. */
  lemma CanonicalMap<V(!new)>(s: Entries<V>, t: Entries<V>)
    requires Ascending(s) && Ascending(t) && ToMap(s) == ToMap(t)
    ensures s == t
  {
    MapHolds(s);
    MapHolds(t);
    Canonical(s, t);
  }

  lemma AscendingCons<V(!new)>(x: (Bytes, V), t: Entries<V>)
    requires Ascending(t)
    requires forall e: (Bytes, V) | e in t :: Less(x.0, e.0)
    ensures Ascending([x] + t)
  {
    var s := [x] + t;
    forall i, j | 0 <= i < j < |s|
      ensures Less(s[i].0, s[j].0)
    {
      assert s[j] == t[j - 1];
      if i > 0 {
        assert s[i] == t[i - 1];
      }
    }
  }

  lemma {:induction false} FindIsLookup<V(!new)>(s: Entries<V>, k: Bytes)
    requires Ascending(s)
    ensures Find(s, k) == Lookup(ToMap(s), k)
  {
    FindFinds(s, k);
    MapHolds(s);
    if k in ToMap(s) {
      var e := (k, ToMap(s)[k]);
      assert e in s;
    }
  }

  lemma {:induction false} FindFinds<V(!new)>(s: Entries<V>, k: Bytes)
    requires Ascending(s)
    ensures Find(s, k).Some? ==> (k, Find(s, k).value) in s
    ensures Find(s, k).None? ==> forall v :: (k, v) !in s
  {
    if s == [] {
    } else {
      FindFinds(s[1..], k);
      assert s == [s[0]] + s[1..];
    }
  }

  lemma {:induction false} InsertEntries<V(!new)>(s: Entries<V>, k: Bytes, v: V)
    requires Ascending(s)
    ensures Ascending(Insert(s, k, v))
    ensures forall e: (Bytes, V) :: e in Insert(s, k, v) <==> e == (k, v) || (e in s && e.0 != k)
    ensures |s| <= |Insert(s, k, v)| <= |s| + 1
  {
    if s == [] {
    } else {
      assert s == [s[0]] + s[1..];
      if Less(s[0].0, k) {
        InsertEntries(s[1..], k, v);
        LessAsymmetric(s[0].0, k);
        forall e: (Bytes, V) | e in Insert(s[1..], k, v)
          ensures Less(s[0].0, e.0)
        {
          FirstIsLeast(s, e);
          assert e == (k, v) || e in s[1..];
        }
        AscendingCons(s[0], Insert(s[1..], k, v));
      } else if s[0].0 == k {
        forall e: (Bytes, V)
          ensures e in s[1..] ==> Less(k, e.0) && e.0 != k
        {
          FirstIsLeast(s, e);
        }
        AscendingCons((k, v), s[1..]);
      } else {
        LessTotal(k, s[0].0);
        LessAsymmetric(k, s[0].0);
        forall e: (Bytes, V)
          ensures e in s ==> Less(k, e.0) && e.0 != k
        {
          FirstIsLeast(s, e);
          if e in s[1..] {
            LessTransitive(k, s[0].0, e.0);
            LessAsymmetric(k, e.0);
          }
        }
        AscendingCons((k, v), s);
      }
    }
  }

  lemma InsertIsUpdate<V(!new)>(s: Entries<V>, k: Bytes, v: V)
    requires Ascending(s)
    ensures Ascending(Insert(s, k, v))
    ensures ToMap(Insert(s, k, v)) == ToMap(s)[k := v]
    ensures |s| <= |Insert(s, k, v)| <= |s| + 1
  {
    InsertEntries(s, k, v);
    SameMap(Insert(s, k, v), s, k, Some(v));
  }

  /** A sequence that differs from another in one key only has the correspondingly changed map. */
  lemma SameMap<V(!new)>(t: Entries<V>, s: Entries<V>, k: Bytes, slot: Option<V>)
    requires Ascending(s) && Ascending(t)
    requires forall e: (Bytes, V) :: e in t <==> (slot.Some? && e == (k, slot.value)) || (e in s && e.0 != k)
    ensures ToMap(t) == if slot.Some? then ToMap(s)[k := slot.value] else ToMap(s) - {k}
  {
    MapHolds(s);
    MapHolds(t);
    var m := if slot.Some? then ToMap(s)[k := slot.value] else ToMap(s) - {k};
    forall x
      ensures x in ToMap(t) <==> x in m
      ensures x in m ==> x in ToMap(t) && ToMap(t)[x] == m[x]
    {
      if x in m {
        var e := (x, m[x]);
        assert e in t;
      }
      if x in ToMap(t) {
        var e := (x, ToMap(t)[x]);
        assert e in t;
      }
    }
  }

  lemma {:induction false} RemoveEntries<V(!new)>(s: Entries<V>, k: Bytes)
    requires Ascending(s)
    ensures Ascending(Remove(s, k))
    ensures forall e: (Bytes, V) :: e in Remove(s, k) <==> e in s && e.0 != k
    ensures |Remove(s, k)| <= |s|
  {
    if s == [] {
    } else {
      assert s == [s[0]] + s[1..];
      forall e: (Bytes, V)
        ensures e in s[1..] ==> Less(s[0].0, e.0) && e.0 != s[0].0
      {
        FirstIsLeast(s, e);
      }
      if s[0].0 != k {
        RemoveEntries(s[1..], k);
        assert forall e: (Bytes, V) | e in Remove(s[1..], k) :: e in s[1..];
        AscendingCons(s[0], Remove(s[1..], k));
      }
    }
  }

  lemma RemoveIsMinus<V(!new)>(s: Entries<V>, k: Bytes)
    requires Ascending(s)
    ensures Ascending(Remove(s, k))
    ensures ToMap(Remove(s, k)) == ToMap(s) - {k}
    ensures |Remove(s, k)| <= |s|
  {
    RemoveEntries(s, k);
    SameMap(Remove(s, k), s, k, None);
  }

  /** An ascending sequence has one entry per key of its map. */
  lemma {:induction false} OneEntryPerKey<V(!new)>(s: Entries<V>)
    requires Ascending(s)
    ensures |s| == |ToMap(s)|
  {
    if s == [] {
    } else {
      var n := |s| - 1;
      OneEntryPerKey(s[..n]);
      MapHolds(s[..n]);
      if s[n].0 in ToMap(s[..n]) {
        var e := (s[n].0, ToMap(s[..n])[s[n].0]);
        KeysDiffer(s, s[n], e);
      }
    }
  }
}
