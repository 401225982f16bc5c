/** The bounded read cache. Its clock stamps stand for a list of keys, least recently used first. */
module LruCache {
  import opened Options
  import opened OrderedMap

  /** A recency list with `k` taken out. */
  ghost function Without<K>(order: seq<K>, k: K): seq<K>
  {
    if order == [] then []
    else if order[0] == k then Without(order[1..], k)
    else [order[0]] + Without(order[1..], k)
  }

  class Lru<K(==, !new), V(!new)> {
    const cap: nat
    var clock: nat
    var entries: map<K, (V, nat)>

    /** The cached keys, from the least to the most recently used. */
    ghost var order: seq<K>

    ghost predicate Valid()
      reads this
    {
      && |entries| == |order| <= cap
      && (forall k :: k in order <==> k in entries)
      && Stamped(order, entries, clock)
    }

    /** What a lookup can return. */
    ghost function Values(): map<K, V>
      reads this
    {
      ValuesOf(entries)
    }

    constructor (cap: nat)
      ensures Valid() && this.cap == cap && entries == map[] && order == []
    {
      this.cap := cap;
      clock := 0;
      entries := map[];
      order := [];
    }

    /** A hit makes the key the most recently used; no value changes. */
    method Get(key: K) returns (r: Option<V>)
      requires Valid()
      modifies this
      ensures Valid()
      ensures r == Lookup(old(Values()), key)
      ensures Values() == old(Values())
      ensures order == if r.Some? then Without(old(order), key) + [key] else old(order)
    {
      clock := clock + 1;
      if key in entries {
        r := Some(entries[key].0);
        Restamp(order, entries, clock - 1, key, entries[key].0);
        ValuesOfUpdate(entries, key, entries[key].0, clock);
        entries := entries[key := (entries[key].0, clock)];
        order := Without(order, key) + [key];
      } else {
        r := None;
      }
    }

    /** A full cache drops exactly its least recently used key. */
    method Insert(key: K, value: V)
      requires Valid()
      modifies this
      ensures Valid()
      ensures cap == 0 ==> order == old(order) && Values() == old(Values())
      ensures cap > 0 && (key in old(order) || |old(order)| < cap) ==>
                && order == Without(old(order), key) + [key]
                && Values() == old(Values())[key := value]
      ensures cap > 0 && key !in old(order) && |old(order)| == cap ==>
                && order == old(order)[1..] + [key]
                && Values() == (old(Values()) - {old(order)[0]})[key := value]
      ensures forall k | k in Values() ::
                (k == key && cap > 0 && Values()[k] == value) || (k in old(Values()) && Values()[k] == old(Values())[k])
    {
      hide Stamped, Without, ValuesOf;
      if cap == 0 {
        return;
      }
      if key !in entries && |entries| >= cap {
        EvictOldest();
        WithoutAbsent(order, key);
      }
      clock := clock + 1;
      Restamp(order, entries, clock - 1, key, value);
      ValuesOfUpdate(entries, key, value, clock);
      entries := entries[key := (value, clock)];
      order := Without(order, key) + [key];
    }

    /** The victim is an entry with the smallest stamp. */
    method EvictOldest()
      requires Valid() && entries != map[]
      modifies this
      ensures Valid() && clock == old(clock)
      ensures old(order) != [] && order == old(order)[1..] && old(order)[0] !in order
      ensures Values() == old(Values()) - {old(order)[0]}
    {
      hide Stamped, ValuesOf;
      FrontIsOldest(order, entries, clock);
      ghost var oldest := order[0];
      var victim :| victim in entries && forall k | k in entries :: entries[victim].1 <= entries[k].1;
      assert victim == oldest;
      Evicted(order, entries, clock);
      entries := entries - {victim};
      order := order[1..];
    }

    method Remove(key: K)
      requires Valid()
      modifies this
      ensures Valid()
      ensures order == Without(old(order), key)
      ensures Values() == old(Values()) - {key}
    {
      hide Stamped, Without, ValuesOf;
      Unstamp(order, entries, clock, key);
      WithoutKeeps(order, key);
      assert key in entries ==> |entries| == |entries - {key}| + 1;
      ValuesMinus(entries, key);
      entries := entries - {key};
      order := Without(order, key);
    }
  }

  ghost function ValuesOf<K, V>(entries: map<K, (V, nat)>): map<K, V>
  {
    map k | k in entries :: entries[k].0
  }

  lemma ValuesOfUpdate<K(!new), V(!new)>(entries: map<K, (V, nat)>, k: K, v: V, stamp: nat)
    ensures ValuesOf(entries[k := (v, stamp)]) == ValuesOf(entries)[k := v]
    ensures k in entries && entries[k].0 == v ==> ValuesOf(entries)[k := v] == ValuesOf(entries)
  {
  }

  lemma ValuesMinus<K(!new), V(!new)>(entries: map<K, (V, nat)>, k: K)
    ensures ValuesOf(entries - {k}) == ValuesOf(entries) - {k}
  {
  }

  /** The stamps ascend along the list and none is in the future. */
  ghost predicate Stamped<K, V>(order: seq<K>, entries: map<K, (V, nat)>, clock: nat)
  {
    && (forall k | k in order :: k in entries && entries[k].1 <= clock)
    && (forall i, j | 0 <= i < j < |order| :: entries[order[i]].1 < entries[order[j]].1)
  }

  lemma {:induction false} WithoutKeeps<K(!new)>(order: seq<K>, k: K)
    ensures forall x :: x in Without(order, k) <==> x in order && x != k
  {
    if order == [] {
    } else {
      WithoutKeeps(order[1..], k);
      assert order == [order[0]] + order[1..];
    }
  }

  lemma {:induction false} WithoutAbsent<K(!new)>(order: seq<K>, k: K)
    requires k !in order
    ensures Without(order, k) == order
  {
    if order == [] {
    } else {
      WithoutAbsent(order[1..], k);
      assert order == [order[0]] + order[1..];
    }
  }

  lemma {:induction false} WithoutStamped<K(!new), V(!new)>(order: seq<K>, entries: map<K, (V, nat)>,
                                            clock: nat, k: K)
    requires Stamped(order, entries, clock)
    ensures Stamped(Without(order, k), entries, clock)
    ensures |Without(order, k)| == |order| - if k in order then 1 else 0
    ensures k in order && order[0] == k ==> Without(order, k) == order[1..]
  {
    WithoutKeeps(order, k);
    if order == [] {
    } else {
      WithoutStamped(order[1..], entries, clock, k);
      if order[0] == k {
        NotTwice(order, entries, clock);
        WithoutAbsent(order[1..], k);
      } else {
        WithoutKeeps(order[1..], k);
        forall x | x in order[1..]
          ensures entries[order[0]].1 < entries[x].1
        {
          var i :| 0 < i < |order| && order[i] == x;
        }
        StampedCons(order[0], Without(order[1..], k), entries, clock);
      }
    }
  }

  lemma StampedCons<K(!new), V(!new)>(x: K, rest: seq<K>, entries: map<K, (V, nat)>, clock: nat)
    requires Stamped(rest, entries, clock) && x in entries && entries[x].1 <= clock
    requires forall y | y in rest :: entries[x].1 < entries[y].1
    ensures Stamped([x] + rest, entries, clock)
  {
  }

  lemma Unstamp<K(!new), V(!new)>(order: seq<K>, entries: map<K, (V, nat)>, clock: nat, k: K)
    requires Stamped(order, entries, clock)
    ensures Stamped(Without(order, k), entries - {k}, clock)
    ensures |Without(order, k)| == |order| - if k in order then 1 else 0
    ensures k in order && order[0] == k ==> Without(order, k) == order[1..]
  {
    WithoutStamped(order, entries, clock, k);
    WithoutKeeps(order, k);
    hide Without;
  }

  /** The least recently used key is the one with the smallest stamp, and the only one. */
  lemma FrontIsOldest<K(!new), V(!new)>(order: seq<K>, entries: map<K, (V, nat)>, clock: nat)
    requires Stamped(order, entries, clock) && order != []
    requires forall k | k in entries :: k in order
    ensures order[0] in entries
    ensures forall k | k in entries && k != order[0] :: entries[order[0]].1 < entries[k].1
  {
    forall k | k in entries && k != order[0]
      ensures entries[order[0]].1 < entries[k].1
    {
      var i :| 0 <= i < |order| && order[i] == k;
    }
  }

  lemma NotTwice<K(!new), V(!new)>(order: seq<K>, entries: map<K, (V, nat)>, clock: nat)
    requires Stamped(order, entries, clock) && order != []
    ensures order[0] !in order[1..]
  {
    forall i | 0 <= i < |order[1..]|
      ensures order[1..][i] != order[0]
    {
      assert entries[order[0]].1 < entries[order[i + 1]].1;
    }
  }

  lemma Evicted<K(!new), V(!new)>(order: seq<K>, entries: map<K, (V, nat)>, clock: nat)
    requires Stamped(order, entries, clock) && order != []
    requires forall k :: k in order <==> k in entries
    ensures Stamped(order[1..], entries - {order[0]}, clock) && order[0] !in order[1..]
    ensures |entries - {order[0]}| == |entries| - 1
    ensures forall k :: k in order[1..] <==> k in entries - {order[0]}
    ensures ValuesOf(entries - {order[0]}) == ValuesOf(entries) - {order[0]}
  {
    assert order[0] in entries;
    Unstamp(order, entries, clock, order[0]);
    WithoutKeeps(order, order[0]);
    ValuesMinus(entries, order[0]);
  }

  lemma StampedSnoc<K(!new), V(!new)>(order: seq<K>, entries: map<K, (V, nat)>, clock: nat, k: K, v: V)
    requires Stamped(order, entries, clock) && k !in order
    ensures Stamped(order + [k], entries[k := (v, clock + 1)], clock + 1)
  {
  }

  lemma Restamp<K(!new), V(!new)>(order: seq<K>, entries: map<K, (V, nat)>, clock: nat, k: K, v: V)
    requires Stamped(order, entries, clock)
    ensures Stamped(Without(order, k) + [k], entries[k := (v, clock + 1)], clock + 1)
    ensures |Without(order, k)| == |order| - if k in order then 1 else 0
    ensures forall x :: x in Without(order, k) + [k] <==> x in order || x == k
  {
    hide Stamped, Without;
    WithoutStamped(order, entries, clock, k);
    WithoutKeeps(order, k);
    StampedSnoc(Without(order, k), entries, clock, k, v);
  }
}
