/** A threshold calibrated on known-benign scores, and how often it flags one more such score. */
module Conformal {
  import opened Sorting

  /** A real number or an infinity. */
  datatype Score = NegativeInfinity | Fin(value: real) | PositiveInfinity

  datatype Guard = Guard(threshold: Score, alpha: real)

  predicate Ascending(s: seq<real>)
  {
    forall i, j | 0 <= i < j < |s| :: s[i] <= s[j]
  }

  predicate AtMost(x: real, y: real)
  {
    x <= y
  }

  function Sorted(s: seq<real>): (r: seq<real>)
    ensures Ascending(r) && |r| == |s|
  {
    SortOrders(s, AtMost);
    SortBy(s, AtMost)
  }

  /** Sorting reorders the scores and changes nothing else. */
  lemma SortedKeeps(s: seq<real>)
    ensures multiset(Sorted(s)) == multiset(s)
  {
    SortKeeps(s, AtMost);
  }

  function Clamped(alpha: real): real
  {
    if alpha < 0.0 then 0.0 else if alpha > 1.0 then 1.0 else alpha
  }

  /** A miscoverage between zero and one is taken as it is, and the guard remembers it. */
  lemma AlphaKept(alpha: real)
    ensures forall scores :: Calibrate(scores, alpha).alpha == Clamped(alpha)
    ensures 0.0 <= Clamped(alpha) <= 1.0
    ensures 0.0 <= alpha <= 1.0 ==> Clamped(alpha) == alpha
    ensures alpha < 0.0 ==> Clamped(alpha) == 0.0
    ensures alpha > 1.0 ==> Clamped(alpha) == 1.0
  {
  }

  function Ceiling(x: real): int
  {
    -(-x).Floor
  }

  /** The 1-based rank of the order statistic that calibration on `n` scores picks. */
  function Rank(n: nat, alpha: real): (r: nat)
    ensures r <= n + 1
  {
    Ceiling((n + 1) as real * (1.0 - Clamped(alpha)))
  }

  function Quantile(scores: seq<real>, alpha: real): Score
  {
    var n := |scores|;
    if n == 0 then PositiveInfinity
    else
      var rank := Rank(n, alpha);
      if rank == 0 then NegativeInfinity
      else if rank > n then PositiveInfinity
      else Fin(Sorted(scores)[rank - 1])
  }

  function Calibrate(scores: seq<real>, alpha: real): Guard
  {
    Guard(Quantile(scores, alpha), Clamped(alpha))
  }

  predicate Flags(g: Guard, score: real)
  {
    g.threshold.NegativeInfinity? || (g.threshold.Fin? && score >= g.threshold.value)
  }

  /** Past the threshold, rather than at it or past it. */
  predicate FlagsAbove(g: Guard, score: real)
  {
    g.threshold.NegativeInfinity? || (g.threshold.Fin? && score > g.threshold.value)
  }

  // ----- one score judged by the others -----

  function Others(t: seq<real>, i: nat): seq<real>
    requires i < |t|
  {
    t[..i] + t[i + 1..]
  }

  /** How many of the first `k` scores are flagged by a guard calibrated on all the others. */
  function Flagged(t: seq<real>, alpha: real, k: nat): nat
    requires k <= |t|
  {
    if k == 0 then 0
    else Flagged(t, alpha, k - 1) + if Flags(Calibrate(Others(t, k - 1), alpha), t[k - 1]) then 1 else 0
  }

  function FlaggedAbove(t: seq<real>, alpha: real, k: nat): nat
    requires k <= |t|
  {
    if k == 0 then 0
    else FlaggedAbove(t, alpha, k - 1) + if FlagsAbove(Calibrate(Others(t, k - 1), alpha), t[k - 1]) then 1 else 0
  }

  function Count(s: seq<real>, f: real -> bool): nat
  {
    if s == [] then 0 else Count(s[..|s| - 1], f) + if f(s[|s| - 1]) then 1 else 0
  }

  lemma IsAmong(s: seq<real>, x: real)
    ensures x in multiset(s) <==> x in s
  {
  }

  lemma LastIsLargest(a: seq<real>, b: seq<real>)
    requires Ascending(a) && Ascending(b) && multiset(a) == multiset(b) && a != []
    ensures b != [] && a[|a| - 1] <= b[|b| - 1]
  {
    var x := a[|a| - 1];
    IsAmong(a, x);
    IsAmong(b, x);
    var i :| 0 <= i < |b| && b[i] == x;
  }

  lemma SameSize(a: seq<real>, b: seq<real>)
    requires multiset(a) == multiset(b)
    ensures |a| == |b|
  {
    assert |multiset(a)| == |a| && |multiset(b)| == |b|;
  }

  /** Only one sequence holds given scores in ascending order. */
  lemma {:induction false} AscendingUnique(a: seq<real>, b: seq<real>)
    requires Ascending(a) && Ascending(b) && multiset(a) == multiset(b)
    ensures a == b
  {
    hide Ascending;
    SameSize(a, b);
    if a == [] {
    } else {
      LastIsLargest(a, b);
      LastIsLargest(b, a);
      SplitLast(a);
      SplitLast(b);
      AscendingInit(a);
      AscendingInit(b);
      SameRest(multiset(a[..|a| - 1]), multiset(b[..|b| - 1]), a[|a| - 1]);
      AscendingUnique(a[..|a| - 1], b[..|b| - 1]);
      assert a == a[..|a| - 1] + [a[|a| - 1]] && b == b[..|b| - 1] + [b[|b| - 1]];
    }
  }

  lemma AscendingInit(s: seq<real>)
    requires Ascending(s) && s != []
    ensures Ascending(s[..|s| - 1])
  {
  }

  lemma OthersAscending(s: seq<real>, i: nat)
    requires Ascending(s) && i < |s|
    ensures Ascending(Others(s, i))
  {
  }

  lemma OthersMultiset(t: seq<real>, i: nat)
    requires i < |t|
    ensures multiset(t) == multiset(Others(t, i)) + multiset{t[i]} && |Others(t, i)| == |t| - 1
  {
    assert t == t[..i] + [t[i]] + t[i + 1..];
  }

  /** Sorting the others is sorting everything and taking one occurrence of the score out. */
  lemma SortedOthers(t: seq<real>, i: nat) returns (p: nat)
    requires i < |t|
    ensures var s := Sorted(t); p < |s| && s[p] == t[i] && Sorted(Others(t, i)) == Others(s, p)
  {
    hide Sorted, Ascending, Others;
    var s := Sorted(t);
    SortedKeeps(t);
    SortedKeeps(Others(t, i));
    IsAmong(t, t[i]);
    IsAmong(s, t[i]);
    p :| 0 <= p < |s| && s[p] == t[i];
    OthersMultiset(t, i);
    OthersMultiset(s, p);
    OthersAscending(s, p);
    SameRest(multiset(Sorted(Others(t, i))), multiset(Others(s, p)), t[i]);
    AscendingUnique(Sorted(Others(t, i)), Others(s, p));
  }

  lemma SameRest(a: multiset<real>, b: multiset<real>, x: real)
    requires a + multiset{x} == b + multiset{x}
    ensures a == b
  {
    assert a + multiset{x} - multiset{x} == a && b + multiset{x} - multiset{x} == b;
  }

  lemma RankOfOthers(s: seq<real>, p: nat, r: nat)
    requires Ascending(s) && p < |s| && 0 < r < |s|
    ensures |Others(s, p)| == |s| - 1
    ensures s[p] >= Others(s, p)[r - 1] <==> s[p] >= s[r]
    ensures s[p] > Others(s, p)[r - 1] <==> s[p] > s[r - 1]
  {
    assert Others(s, p)[r - 1] == if p < r then s[r] else s[r - 1];
  }

  /** A score is flagged by a guard calibrated on the others exactly when it reaches the score of the
      guard's rank among all of them. */
  lemma FlaggedByOthers(t: seq<real>, alpha: real, i: nat)
    requires i < |t| && |t| > 1
    ensures var s, r := Sorted(t), Rank(|t| - 1, alpha);
            && (Flags(Calibrate(Others(t, i), alpha), t[i]) <==> r == 0 || (r < |t| && t[i] >= s[r]))
            && (FlagsAbove(Calibrate(Others(t, i), alpha), t[i]) <==> r == 0 || (r < |t| && t[i] > s[r - 1]))
  {
    hide Sorted, Rank, Others, Ascending;
    var s, r := Sorted(t), Rank(|t| - 1, alpha);
    var p := SortedOthers(t, i);
    OthersMultiset(t, i);
    if 0 < r < |t| {
      RankOfOthers(s, p, r);
    }
  }

  lemma {:induction false} FlaggedIsCount(t: seq<real>, alpha: real, k: nat, f: real -> bool, g: real -> bool)
    requires k <= |t|
    requires forall i | 0 <= i < k :: Flags(Calibrate(Others(t, i), alpha), t[i]) == f(t[i])
    requires forall i | 0 <= i < k :: FlagsAbove(Calibrate(Others(t, i), alpha), t[i]) == g(t[i])
    ensures Flagged(t, alpha, k) == Count(t[..k], f)
    ensures FlaggedAbove(t, alpha, k) == Count(t[..k], g)
  {
    hide Flags, FlagsAbove, Calibrate;
    if k == 0 {
    } else {
      FlaggedIsCount(t, alpha, k - 1, f, g);
      assert t[..k][..k - 1] == t[..k - 1];
    }
  }

  lemma {:induction false} CountTakesOut(s: seq<real>, i: nat, f: real -> bool)
    requires i < |s|
    ensures Count(s, f) == Count(Others(s, i), f) + if f(s[i]) then 1 else 0
    decreases |s|
  {
    var n := |s| - 1;
    if i < n {
      CountTakesOut(s[..n], i, f);
      assert Others(s, i)[..n - 1] == Others(s[..n], i);
    } else {
      assert Others(s, i) == s[..n];
    }
  }

  lemma {:induction false} CountIgnoresOrder(a: seq<real>, b: seq<real>, f: real -> bool)
    requires multiset(a) == multiset(b)
    ensures Count(a, f) == Count(b, f)
    decreases |a|
  {
    hide Count, Others;
    SameSize(a, b);
    if a != [] {
      var n := |a| - 1;
      IsAmong(a, a[n]);
      IsAmong(b, a[n]);
      var i :| 0 <= i < |b| && b[i] == a[n];
      OthersMultiset(a, n);
      OthersMultiset(b, i);
      SameRest(multiset(Others(a, n)), multiset(Others(b, i)), a[n]);
      CountTakesOut(a, n, f);
      CountTakesOut(b, i, f);
      CountIgnoresOrder(Others(a, n), Others(b, i), f);
    } else {
      assert a == b;
    }
  }

  /** Positions from `q` on satisfy `f` and the ones before do not. */
  lemma {:induction false} CountFrom(s: seq<real>, q: nat, f: real -> bool)
    requires q <= |s|
    requires forall i | 0 <= i < q :: !f(s[i])
    requires forall i | q <= i < |s| :: f(s[i])
    ensures Count(s, f) == |s| - q
    decreases |s|
  {
    if |s| > q {
      CountFrom(s[..|s| - 1], q, f);
    } else if q > 0 {
      CountFrom(s[..|s| - 1], q - 1, f);
    }
  }

  /** The first position that holds what position `r` holds. */
  function FirstOf(s: seq<real>, r: nat): (q: nat)
    requires Ascending(s) && r < |s|
    ensures q <= r && s[q] == s[r] && (q > 0 ==> s[q - 1] < s[r])
  {
    if r > 0 && s[r - 1] == s[r] then FirstOf(s, r - 1) else r
  }

  /** The first position past `r` that holds more. */
  function FirstPast(s: seq<real>, r: nat): (q: nat)
    requires Ascending(s) && r < |s|
    ensures r < q <= |s| && s[q - 1] == s[r] && (q < |s| ==> s[r] < s[q])
    decreases |s| - r
  {
    if r + 1 < |s| && s[r + 1] == s[r] then FirstPast(s, r + 1) else r + 1
  }

  /** Where the flagged scores start in sorted order. */
  function Cut(s: seq<real>, r: nat): nat
    requires Ascending(s) && r <= |s|
  {
    if r == |s| then r else FirstOf(s, r)
  }

  function CutAbove(s: seq<real>, r: nat): nat
    requires Ascending(s) && r <= |s|
  {
    if r == 0 || r == |s| then r else FirstPast(s, r - 1)
  }

  lemma CutsSplit(s: seq<real>, r: nat)
    requires Ascending(s) && r <= |s|
    ensures Cut(s, r) <= |s| && CutAbove(s, r) <= |s|
    ensures forall i | 0 <= i < |s| :: i >= Cut(s, r) <==> r == 0 || (r < |s| && s[i] >= s[r])
    ensures forall i | 0 <= i < |s| :: i >= CutAbove(s, r) <==> r == 0 || (r < |s| && s[i] > s[r - 1])
  {
  }

  /** How many of `N` scores are flagged, each by a guard calibrated on the others: every score from
      the first one tied with the guard's rank on. */
  lemma FlaggedExactly(t: seq<real>, alpha: real)
    requires |t| > 1
    ensures var s, r := Sorted(t), Rank(|t| - 1, alpha);
            && Flagged(t, alpha, |t|) == |t| - Cut(s, r)
            && FlaggedAbove(t, alpha, |t|) == |t| - CutAbove(s, r)
  {
    hide Flags, FlagsAbove, Calibrate, Sorted, Rank, Count, Flagged, FlaggedAbove, Ascending, Cut, CutAbove;
    var s, r := Sorted(t), Rank(|t| - 1, alpha);
    var f := (x: real) => r == 0 || (r < |s| && x >= s[r]);
    var g := (x: real) => r == 0 || (r < |s| && x > s[r - 1]);
    forall i | 0 <= i < |t|
      ensures Flags(Calibrate(Others(t, i), alpha), t[i]) == f(t[i])
      ensures FlagsAbove(Calibrate(Others(t, i), alpha), t[i]) == g(t[i])
    {
      FlaggedByOthers(t, alpha, i);
    }
    FlaggedIsCount(t, alpha, |t|, f, g);
    assert t[..|t|] == t;
    SortedKeeps(t);
    CountIgnoresOrder(t, s, f);
    CountIgnoresOrder(t, s, g);
    CutsSplit(s, r);
    CountFrom(s, Cut(s, r), f);
    CountFrom(s, CutAbove(s, r), g);
  }

  lemma RankBounds(n: nat, alpha: real)
    ensures var total := (n + 1) as real;
            var kept := (n + 1 - Rank(n, alpha)) as real;
            kept <= Clamped(alpha) * total < kept + 1.0
  {
    var total := (n + 1) as real;
    assert total * (1.0 - Clamped(alpha)) == total - Clamped(alpha) * total;
  }

  /** No score below the guard's rank is tied with it. */
  predicate NoTie(s: seq<real>, r: nat)
    requires r <= |s|
  {
    r == 0 || r == |s| || s[r - 1] < s[r]
  }

  /** The promised bound on the share of flagged scores holds exactly when no tie straddles the cut;
      then the count is `N - ceil(N * (1 - alpha))`, within one of the bound. */
  lemma BoundHoldsExactly(t: seq<real>, alpha: real)
    requires |t| > 1
    ensures var s, r := Sorted(t), Rank(|t| - 1, alpha);
            var bound := Clamped(alpha) * |t| as real;
            && (Flagged(t, alpha, |t|) as real <= bound <==> NoTie(s, r))
            && (NoTie(s, r) <==> Flagged(t, alpha, |t|) == |t| - r)
            && bound < (|t| - r) as real + 1.0
  {
    hide Sorted, Rank, Flagged, FlaggedAbove, Ascending, CutAbove;
    FlaggedExactly(t, alpha);
    RankBounds(|t| - 1, alpha);
    var s, r := Sorted(t), Rank(|t| - 1, alpha);
    TieMovesCut(s, r);
  }

  lemma TieMovesCut(s: seq<real>, r: nat)
    requires Ascending(s) && r <= |s|
    ensures Cut(s, r) <= r && (Cut(s, r) == r <==> NoTie(s, r))
    ensures r <= CutAbove(s, r) <= |s|
  {
  }

  /** For a miscoverage between zero and one: the share flagged is at most `alpha` exactly without a tie. */
  lemma AlphaBounds(t: seq<real>, alpha: real)
    requires |t| > 1 && 0.0 <= alpha <= 1.0
    ensures Flagged(t, alpha, |t|) as real <= alpha * |t| as real <==> NoTie(Sorted(t), Rank(|t| - 1, alpha))
    ensures (|t| - Rank(|t| - 1, alpha)) as real <= alpha * |t| as real < (|t| - Rank(|t| - 1, alpha)) as real + 1.0
  {
    hide Sorted, Rank, Flagged, NoTie;
    AlphaKept(alpha);
    BoundHoldsExactly(t, alpha);
    RankBounds(|t| - 1, alpha);
  }

  /** So it holds for pairwise distinct scores. */
  lemma DistinctScoresBounded(t: seq<real>, alpha: real)
    requires |t| > 1 && forall i, j | 0 <= i < j < |t| :: t[i] != t[j]
    ensures Flagged(t, alpha, |t|) == |t| - Rank(|t| - 1, alpha)
    ensures Flagged(t, alpha, |t|) as real <= Clamped(alpha) * |t| as real
  {
    hide Sorted, Rank, Flagged;
    BoundHoldsExactly(t, alpha);
    var s, r := Sorted(t), Rank(|t| - 1, alpha);
    if 0 < r < |s| {
      SortedKeepsDistinct(t, r);
    }
  }

  lemma SortedKeepsDistinct(t: seq<real>, r: nat)
    requires 0 < r < |t| && forall i, j | 0 <= i < j < |t| :: t[i] != t[j]
    ensures Sorted(t)[r - 1] < Sorted(t)[r]
  {
    hide Sorted;
    var s := Sorted(t);
    if s[r - 1] == s[r] {
      SortedKeeps(t);
      AtMostOnce(t, s[r]);
      Twice(s, r);
    }
  }

  lemma Twice(s: seq<real>, r: nat)
    requires 0 < r < |s| && s[r - 1] == s[r]
    ensures multiset(s)[s[r]] >= 2
  {
    assert s == s[..r - 1] + [s[r - 1], s[r]] + s[r + 1..];
  }

  lemma {:induction false} AtMostOnce(t: seq<real>, x: real)
    requires forall i, j | 0 <= i < j < |t| :: t[i] != t[j]
    ensures multiset(t)[x] <= 1
  {
    if t == [] {
    } else {
      var n := |t| - 1;
      AtMostOnce(t[..n], x);
      assert t == t[..n] + [t[n]];
      if t[n] == x {
        assert forall i | 0 <= i < n :: t[..n][i] == t[i] != x;
        assert x !in multiset(t[..n]);
      }
    }
  }

  /** With the comparison the documentation describes, strictly above the threshold, the bound would
      hold for all scores, ties or not. */
  lemma StrictComparisonBounded(t: seq<real>, alpha: real)
    requires |t| > 1
    ensures FlaggedAbove(t, alpha, |t|) as real <= Clamped(alpha) * |t| as real
  {
    hide Sorted, Rank, Flagged, FlaggedAbove, Ascending, Cut, CutAbove;
    FlaggedExactly(t, alpha);
    RankBounds(|t| - 1, alpha);
    TieMovesCut(Sorted(t), Rank(|t| - 1, alpha));
  }

  /** Two equal scores at `alpha` one half: both are flagged, where the bound promises at most one. */
  lemma TiesBreakTheBound()
    ensures Flagged([0.5, 0.5], 0.5, 2) == 2 && 2.0 > Clamped(0.5) * 2.0
  {
    hide Sorted, Flagged, Ascending;
    var t := [0.5, 0.5];
    var s := Sorted(t);
    assert Rank(1, 0.5) == 1 by {
      assert 2.0 * (1.0 - Clamped(0.5)) == 1.0;
    }
    SortedKeeps(t);
    IsAmong(s, s[0]);
    IsAmong(s, s[1]);
    FlaggedExactly(t, 0.5);
    TieMovesCut(s, 1);
  }
}
