/** Agent ids in the order a `BTreeMap` keeps them. */
module Names {

  predicate Before(a: string, b: string)
  {
    b != [] && (a == [] || a[0] < b[0] || (a[0] == b[0] && Before(a[1..], b[1..])))
  }

  /** The two part at `i`, and there the first is the smaller. */
  predicate PartAt(a: string, b: string, i: nat)
  {
    i < |a| && i < |b| && a[..i] == b[..i] && a[i] < b[i]
  }

  lemma FirstOfPart(a: string, b: string, i: nat)
    requires PartAt(a, b, i)
    ensures a != [] && b != [] && (i == 0 || a[0] == b[0])
  {
    if i > 0 {
      assert a[..i][0] == b[..i][0];
    }
  }

  lemma PartsAtOnce(a: string, b: string)
    requires a == [] || b == [] || a[0] != b[0]
    ensures (exists i: nat :: PartAt(a, b, i)) <==> a != [] && b != [] && a[0] < b[0]
  {
    if i: nat :| PartAt(a, b, i) {
      FirstOfPart(a, b, i);
    }
    if a != [] && b != [] && a[0] < b[0] {
      assert PartAt(a, b, 0);
    }
  }

  lemma PartsLater(a: string, b: string, i: nat)
    requires PartAt(a, b, i) && a[0] == b[0]
    ensures i > 0 && PartAt(a[1..], b[1..], i - 1)
  {
    assert a[1..][..i - 1] == a[..i][1..] && b[1..][..i - 1] == b[..i][1..];
  }

  /** A proper prefix comes first, and otherwise the smaller character at the first difference decides. */
  lemma {:induction false} BeforeExactly(a: string, b: string)
    ensures Before(a, b) <==> a < b || exists i: nat :: PartAt(a, b, i)
  {
    if a == [] || b == [] || a[0] != b[0] {
      PartsAtOnce(a, b);
    } else {
      var x, y := a[1..], b[1..];
      BeforeExactly(x, y);
      assert a == [a[0]] + x && b == [b[0]] + y;
      forall i: nat | PartAt(x, y, i)
        ensures PartAt(a, b, i + 1)
      {
        assert a[..i + 1] == [a[0]] + x[..i] && b[..i + 1] == [b[0]] + y[..i];
      }
      forall i: nat | PartAt(a, b, i)
        ensures i > 0 && PartAt(x, y, i - 1)
      {
        PartsLater(a, b, i);
      }
    }
  }

  lemma {:induction false} BeforeTransitive(a: string, b: string, c: string)
    requires Before(a, b) && Before(b, c)
    ensures Before(a, c)
  {
    if a != [] && a[0] == b[0] && b[0] == c[0] {
      BeforeTransitive(a[1..], b[1..], c[1..]);
    }
  }

  lemma {:induction false} BeforeTotal(a: string, b: string)
    ensures a == b || Before(a, b) || Before(b, a)
  {
    if a != [] && b != [] && a[0] == b[0] {
      BeforeTotal(a[1..], b[1..]);
      assert a == [a[0]] + a[1..] && b == [b[0]] + b[1..];
    }
  }

  lemma {:induction false} BeforeAsymmetric(a: string, b: string)
    requires Before(a, b)
    ensures a != b && !Before(b, a)
  {
    if a != [] && a[0] == b[0] {
      BeforeAsymmetric(a[1..], b[1..]);
    }
  }

  predicate IsFirst(ids: set<string>, id: string)
  {
    id in ids && forall x | x in ids && x != id :: Before(id, x)
  }

  lemma {:induction false} HasFirst(ids: set<string>)
    requires ids != {}
    ensures exists id :: IsFirst(ids, id)
  {
    hide Before;
    var q :| q in ids;
    if ids == {q} {
      assert IsFirst(ids, q);
    } else {
      HasFirst(ids - {q});
      var r :| IsFirst(ids - {q}, r);
      BeforeTotal(q, r);
      if Before(q, r) {
        forall x | x in ids && x != q
          ensures Before(q, x)
        {
          if x != r {
            BeforeTransitive(q, r, x);
          }
        }
        assert IsFirst(ids, q);
      } else {
        assert IsFirst(ids, r);
      }
    }
  }

  function First(ids: set<string>): (id: string)
    requires ids != {}
    ensures IsFirst(ids, id)
  {
    HasFirst(ids);
    FirstUnique(ids);
    var id :| id in ids && IsFirst(ids, id);
    id
  }

  lemma FirstUnique(ids: set<string>)
    ensures forall a, b | IsFirst(ids, a) && IsFirst(ids, b) :: a == b
  {
    hide Before;
    forall a, b | IsFirst(ids, a) && IsFirst(ids, b)
      ensures a == b
    {
      if a != b {
        BeforeAsymmetric(a, b);
      }
    }
  }

  /** Every id once, in order. */
  function Sorted(ids: set<string>): (s: seq<string>)
    ensures forall id :: id in s <==> id in ids
    ensures forall i, j | 0 <= i < j < |s| :: Before(s[i], s[j])
  {
    if ids == {} then []
    else
      var id := First(ids);
      var rest := Sorted(ids - {id});
      assert forall i | 0 <= i < |rest| :: rest[i] in ids - {id};
      [id] + rest
  }

  lemma HoldsSome(s: seq<string>)
    requires s != []
    ensures exists id :: id in s
  {
    assert s[0] in s;
  }

  lemma {:induction false} AscendingUnique(s: seq<string>, t: seq<string>)
    requires forall i, j | 0 <= i < j < |s| :: Before(s[i], s[j])
    requires forall i, j | 0 <= i < j < |t| :: Before(t[i], t[j])
    requires forall id :: id in s <==> id in t
    ensures s == t
  {
    hide Before;
    if s == [] {
      if t != [] {
        HoldsSome(t);
      }
    } else {
      assert s[0] in t && t != [] && t[0] in s;
      var i :| 0 <= i < |t| && t[i] == s[0];
      var j :| 0 <= j < |s| && s[j] == t[0];
      if i > 0 && j > 0 {
        BeforeAsymmetric(s[0], s[j]);
      }
      assert s[0] == t[0];
      forall id
        ensures id in s[1..] <==> id in t[1..]
      {
        NotFirst(s, id);
        NotFirst(t, id);
      }
      AscendingUnique(s[1..], t[1..]);
    }
  }

  lemma NotFirst(s: seq<string>, id: string)
    requires s != [] && forall i, j | 0 <= i < j < |s| :: Before(s[i], s[j])
    ensures id in s[1..] <==> id in s && id != s[0]
  {
    hide Before;
    if id in s[1..] {
      var i :| 0 <= i < |s[1..]| && s[1..][i] == id;
      BeforeAsymmetric(s[0], s[i + 1]);
    }
  }

  /** An id after all others comes last. */
  lemma SortedLast(ids: set<string>, x: string)
    requires forall id | id in ids :: Before(id, x)
    ensures Sorted(ids + {x}) == Sorted(ids) + [x]
  {
    hide Before, Sorted;
    var s := Sorted(ids);
    assert forall i | 0 <= i < |s| :: s[i] in s;
    AscendingUnique(Sorted(ids + {x}), s + [x]);
  }

  ghost predicate Distinct(ids: seq<string>)
  {
    forall i, j | 0 <= i < j < |ids| :: ids[i] != ids[j]
  }

  lemma SortedDistinct(ids: set<string>)
    ensures Distinct(Sorted(ids))
  {
    hide Sorted, Before;
    var s := Sorted(ids);
    forall i, j | 0 <= i < j < |s|
      ensures s[i] != s[j]
    {
      BeforeAsymmetric(s[i], s[j]);
    }
  }
}
