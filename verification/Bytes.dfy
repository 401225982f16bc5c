/** Byte strings under the order Rust gives `str` and `[u8]`: byte by byte, shorter first. */
module Bytes {

  type byte = x: int | 0 <= x < 256

  type Bytes = seq<byte>

  /** Strict lexicographic order. */
  predicate Less(a: Bytes, b: Bytes)
  {
    b != [] && (a == [] || a[0] < b[0] || (a[0] == b[0] && Less(a[1..], b[1..])))
  }

  /** The two part at `i`, and there the first is the smaller. */
  predicate PartAt(a: Bytes, b: Bytes, i: nat)
  {
    i < |a| && i < |b| && a[..i] == b[..i] && a[i] < b[i]
  }

  lemma FirstOfPart(a: Bytes, b: Bytes, i: nat)
    requires PartAt(a, b, i)
    ensures a != [] && b != [] && (i == 0 || a[0] == b[0])
  {
    if i > 0 {
      assert a[..i][0] == b[..i][0];
    }
  }

  lemma PartsAtOnce(a: Bytes, b: Bytes)
    requires a == [] || b == [] || a[0] != b[0]
    ensures (exists i: nat :: PartAt(a, b, i)) <==> a != [] && b != [] && a[0] < b[0]
  {
    if i: nat :| PartAt(a, b, i) {
      FirstOfPart(a, b, i);
    }
    if a != [] && b != [] && a[0] < b[0] {
      assert PartAt(a, b, 0);
    }
  }

  lemma PartsLater(a: Bytes, b: Bytes, i: nat)
    requires PartAt(a, b, i) && a[0] == b[0]
    ensures i > 0 && PartAt(a[1..], b[1..], i - 1)
  {
    assert a[1..][..i - 1] == a[..i][1..] && b[1..][..i - 1] == b[..i][1..];
  }

  /** A proper prefix comes first, and otherwise the smaller byte at the first difference decides. */
  lemma {:induction false} LessExactly(a: Bytes, b: Bytes)
    ensures Less(a, b) <==> a < b || exists i: nat :: PartAt(a, b, i)
  {
    if a == [] || b == [] || a[0] != b[0] {
      PartsAtOnce(a, b);
    } else {
      var x, y := a[1..], b[1..];
      LessExactly(x, y);
      assert a == [a[0]] + x && b == [b[0]] + y;
      forall i: nat | PartAt(x, y, i)
        ensures PartAt(a, b, i + 1)
      {
        assert a[..i + 1] == [a[0]] + x[..i] && b[..i + 1] == [b[0]] + y[..i];
      }
      forall i: nat | PartAt(a, b, i)
        ensures i > 0 && PartAt(x, y, i - 1)
      {
        PartsLater(a, b, i);
      }
    }
  }

  lemma {:induction false} LessIrreflexive(a: Bytes)
    ensures !Less(a, a)
  {
    if a == [] {
    } else {
      LessIrreflexive(a[1..]);
    }
  }

  lemma {:induction false} LessTransitive(a: Bytes, b: Bytes, c: Bytes)
    requires Less(a, b) && Less(b, c)
    ensures Less(a, c)
  {
    if a != [] && a[0] == b[0] && b[0] == c[0] {
      LessTransitive(a[1..], b[1..], c[1..]);
    }
  }

  lemma {:induction false} LessTotal(a: Bytes, b: Bytes)
    ensures a == b || Less(a, b) || Less(b, a)
  {
    if a != [] && b != [] && a[0] == b[0] {
      LessTotal(a[1..], b[1..]);
      assert a == [a[0]] + a[1..] && b == [b[0]] + b[1..];
    }
  }

  lemma LessAsymmetric(a: Bytes, b: Bytes)
    requires Less(a, b)
    ensures a != b && !Less(b, a)
  {
    LessIrreflexive(a);
    if Less(b, a) {
      LessTransitive(a, b, a);
    }
  }

  /** A key that starts with a prefix is not before it. */
  lemma {:induction false} ExtensionNotLess(prefix: Bytes, key: Bytes)
    requires prefix <= key
    ensures !Less(key, prefix)
  {
    if prefix == [] {
    } else {
      ExtensionNotLess(prefix[1..], key[1..]);
    }
  }

  /** The keys with a given prefix form one interval: past it, no key starts with the prefix again. */
  lemma {:induction false} PastThePrefix(prefix: Bytes, key: Bytes, later: Bytes)
    requires !Less(key, prefix) && !(prefix <= key)
    requires Less(key, later)
    ensures !Less(later, prefix) && !(prefix <= later)
  {
    if prefix == [] {
    } else {
      assert key != [] && later != [];
      if key[0] == prefix[0] && later[0] == prefix[0] {
        assert prefix[1..] <= key[1..] ==> prefix <= key by {
          assert prefix == [prefix[0]] + prefix[1..] && key == [key[0]] + key[1..];
        }
        PastThePrefix(prefix[1..], key[1..], later[1..]);
      }
    }
  }
}
