/** Dynamic time warping: the cheapest monotone alignment of two series, traced back from its table. */
module TimeWarp {
  import opened Options

  /** A real number, or positive infinity. */
  datatype Cost = Fin(value: real) | Infinite

  predicate Leq(x: Cost, y: Cost)
  {
    y.Infinite? || (x.Fin? && x.value <= y.value)
  }

  function Min(x: Cost, y: Cost): Cost
  {
    if Leq(x, y) then x else y
  }

  function Plus(d: real, x: Cost): Cost
  {
    if x.Fin? then Fin(d + x.value) else Infinite
  }

  function Gap(x: real, y: real): real
  {
    if x < y then y - x else x - y
  }

  /** The local cost is the absolute difference. */
  lemma GapMeasures(x: real, d: real)
    requires d >= 0.0
    ensures Gap(x, x + d) == d && Gap(x + d, x) == d
  {
  }

  /** What the padded table holds at row `i`, column `j`. */
  function Cell(a: seq<real>, b: seq<real>, i: nat, j: nat): Cost
    requires i <= |a| && j <= |b|
    decreases i + j
  {
    if i == 0 && j == 0 then Fin(0.0)
    else if i == 0 || j == 0 then Infinite
    else Plus(Gap(a[i - 1], b[j - 1]), Min(Min(Cell(a, b, i - 1, j - 1), Cell(a, b, i - 1, j)), Cell(a, b, i, j - 1)))
  }

  /** Where the traceback goes next: the diagonal on ties, then up, then left. */
  function Previous(a: seq<real>, b: seq<real>, i: nat, j: nat): (p: (nat, nat))
    requires 0 < i <= |a| && 0 < j <= |b|
    ensures p.0 <= i && p.1 <= j && p.0 + p.1 < i + j && Step(p, (i, j))
  {
    var diag, up, left := Cell(a, b, i - 1, j - 1), Cell(a, b, i - 1, j), Cell(a, b, i, j - 1);
    if Leq(diag, up) && Leq(diag, left) then (i - 1, j - 1)
    else if Leq(up, left) then (i - 1, j)
    else (i, j - 1)
  }

  function Traced(a: seq<real>, b: seq<real>, i: nat, j: nat): seq<(nat, nat)>
    requires i <= |a| && j <= |b|
    decreases i + j
  {
    if i == 0 || j == 0 then []
    else
      var p := Previous(a, b, i, j);
      Traced(a, b, p.0, p.1) + [(i - 1, j - 1)]
  }

  // ----- warping paths -----

  predicate Step(p: (nat, nat), q: (nat, nat))
  {
    || (q.0 == p.0 + 1 && q.1 == p.1 + 1)
    || (q.0 == p.0 + 1 && q.1 == p.1)
    || (q.0 == p.0 && q.1 == p.1 + 1)
  }

  /** A monotone alignment of the first `i` samples with the first `j`, without skips. */
  predicate WarpingPath(p: seq<(nat, nat)>, i: nat, j: nat)
  {
    && p != [] && p[0] == (0, 0) && p[|p| - 1] == (i - 1, j - 1)
    && forall k | 0 < k < |p| :: Step(p[k - 1], p[k])
  }

  predicate Inside(p: seq<(nat, nat)>, i: nat, j: nat)
  {
    forall k | 0 <= k < |p| :: p[k].0 < i && p[k].1 < j
  }

  lemma {:induction false} PathStaysInside(p: seq<(nat, nat)>, i: nat, j: nat, k: nat)
    requires WarpingPath(p, i, j) && k < |p|
    ensures p[k].0 < i && p[k].1 < j
    decreases |p| - k
  {
    if k + 1 < |p| {
      PathStaysInside(p, i, j, k + 1);
      assert Step(p[k], p[k + 1]);
    }
  }

  /** The summed local cost of an alignment. */
  function PathCost(a: seq<real>, b: seq<real>, p: seq<(nat, nat)>): real
    requires Inside(p, |a|, |b|)
  {
    if p == [] then 0.0
    else
      var (x, y) := p[|p| - 1];
      PathCost(a, b, p[..|p| - 1]) + Gap(a[x], b[y])
  }

  /** Every alignment costs at least what the table says. */
  lemma {:induction false} NoPathIsCheaper(a: seq<real>, b: seq<real>, p: seq<(nat, nat)>, i: nat, j: nat)
    requires 0 < i <= |a| && 0 < j <= |b| && WarpingPath(p, i, j)
    ensures Inside(p, i, j)
    ensures Leq(Cell(a, b, i, j), Fin(PathCost(a, b, p)))
    decreases |p|
  {
    forall k | 0 <= k < |p|
      ensures p[k].0 < i && p[k].1 < j
    {
      PathStaysInside(p, i, j, k);
    }
    var n := |p| - 1;
    if n == 0 {
      assert p[..0] == [];
    } else {
      var (x, y) := p[n - 1];
      assert Step(p[n - 1], p[n]);
      assert WarpingPath(p[..n], x + 1, y + 1);
      NoPathIsCheaper(a, b, p[..n], x + 1, y + 1);
    }
  }

  lemma CellUnfolds(a: seq<real>, b: seq<real>, i: nat, j: nat)
    requires 0 < i <= |a| && 0 < j <= |b|
    ensures Cell(a, b, i, j)
            == Plus(Gap(a[i - 1], b[j - 1]),
                Min(Min(Cell(a, b, i - 1, j - 1), Cell(a, b, i - 1, j)), Cell(a, b, i, j - 1)))
  {
  }

  lemma EdgeCells(a: seq<real>, b: seq<real>, i: nat, j: nat)
    requires i <= |a| && j <= |b| && (i == 0 || j == 0)
    ensures Cell(a, b, i, j) == if i == j then Fin(0.0) else Infinite
  {
  }

  lemma LeastOf(diag: Cost, up: Cost, left: Cost)
    ensures Min(Min(diag, up), left)
            == if Leq(diag, up) && Leq(diag, left) then diag else if Leq(up, left) then up else left
  {
  }

  lemma InfinitePlus(d: real)
    ensures Plus(d, Infinite).Infinite?
  {
  }

  lemma PreviousIsLeast(a: seq<real>, b: seq<real>, i: nat, j: nat)
    requires 0 < i <= |a| && 0 < j <= |b|
    ensures var (x, y) := Previous(a, b, i, j);
            Cell(a, b, x, y) == Min(Min(Cell(a, b, i - 1, j - 1), Cell(a, b, i - 1, j)), Cell(a, b, i, j - 1))
  {
    hide Cell, Leq, Min;
    LeastOf(Cell(a, b, i - 1, j - 1), Cell(a, b, i - 1, j), Cell(a, b, i, j - 1));
  }

  /** The step the traceback takes leads to a finite cell that accounts for the rest of the cost. */
  lemma PreviousAccounts(a: seq<real>, b: seq<real>, i: nat, j: nat)
    requires 0 < i <= |a| && 0 < j <= |b|
    ensures var (x, y) := Previous(a, b, i, j);
            && Cell(a, b, i, j) == Plus(Gap(a[i - 1], b[j - 1]), Cell(a, b, x, y))
            && (x == 0 || y == 0 ==> (x == 0 && y == 0) || Cell(a, b, i, j).Infinite?)
  {
    hide Cell, Gap, Min, Leq, Plus, Previous;
    CellUnfolds(a, b, i, j);
    PreviousIsLeast(a, b, i, j);
    InfinitePlus(Gap(a[i - 1], b[j - 1]));
    var (x, y) := Previous(a, b, i, j);
    if x == 0 || y == 0 {
      EdgeCells(a, b, x, y);
    }
  }

  lemma {:induction false} CellIsFinite(a: seq<real>, b: seq<real>, i: nat, j: nat)
    requires 0 < i <= |a| && 0 < j <= |b|
    ensures Cell(a, b, i, j).Fin?
    decreases i + j
  {
    if i > 1 {
      CellIsFinite(a, b, i - 1, j);
    } else if j > 1 {
      CellIsFinite(a, b, i, j - 1);
    }
  }

  lemma PathExtended(a: seq<real>, b: seq<real>, p: seq<(nat, nat)>, x: nat, y: nat, i: nat, j: nat)
    requires 0 < x <= i <= |a| && 0 < y <= j <= |b| && Step((x, y), (i, j))
    requires WarpingPath(p, x, y) && Inside(p, x, y)
    ensures var q := p + [(i - 1, j - 1)];
            WarpingPath(q, i, j) && Inside(q, i, j) && PathCost(a, b, q) == PathCost(a, b, p) + Gap(a[i - 1], b[j - 1])
  {
    var q := p + [(i - 1, j - 1)];
    assert q[..|q| - 1] == p;
    forall k | 0 < k < |q|
      ensures Step(q[k - 1], q[k])
    {
      if k < |p| {
        assert Step(p[k - 1], p[k]);
      }
    }
  }

  /** The traceback is an alignment, and costs exactly what the table says. */
  lemma {:induction false} TracedIsOptimal(a: seq<real>, b: seq<real>, i: nat, j: nat)
    requires 0 < i <= |a| && 0 < j <= |b|
    ensures var p := Traced(a, b, i, j);
            && WarpingPath(p, i, j) && Inside(p, i, j)
            && Cell(a, b, i, j) == Fin(PathCost(a, b, p))
    decreases i + j
  {
    hide Cell, WarpingPath, Previous, PathCost, Inside;
    var (x, y) := Previous(a, b, i, j);
    PreviousAccounts(a, b, i, j);
    CellIsFinite(a, b, i, j);
    if x == 0 {
      FirstPair(a, b);
    } else {
      TracedIsOptimal(a, b, x, y);
      PathExtended(a, b, Traced(a, b, x, y), x, y, i, j);
    }
  }

  lemma FirstPair(a: seq<real>, b: seq<real>)
    requires a != [] && b != []
    ensures var p: seq<(nat, nat)> := [(0, 0)];
            && Traced(a, b, 1, 1) == p && WarpingPath(p, 1, 1) && Inside(p, 1, 1)
            && Cell(a, b, 1, 1) == Fin(PathCost(a, b, p))
  {
    var p: seq<(nat, nat)> := [(0, 0)];
    assert p[..0] == [];
  }

  // ----- the program -----

  datatype Alignment = Alignment(distance: Cost, path: seq<(nat, nat)>, divergence: Option<nat>)

  /** The summed cost of the path is the least over all alignments. */
  ghost predicate IsBest(a: seq<real>, b: seq<real>, path: seq<(nat, nat)>, distance: Cost)
  {
    && WarpingPath(path, |a|, |b|) && Inside(path, |a|, |b|)
    && distance == Fin(PathCost(a, b, path))
    && forall q: seq<(nat, nat)> | WarpingPath(q, |a|, |b|) && Inside(q, |a|, |b|) ::
         PathCost(a, b, path) <= PathCost(a, b, q)
  }

  lemma TracedIsBest(a: seq<real>, b: seq<real>)
    requires a != [] && b != []
    ensures IsBest(a, b, Traced(a, b, |a|, |b|), Cell(a, b, |a|, |b|))
  {
    hide Cell, Traced, WarpingPath, PathCost;
    TracedIsOptimal(a, b, |a|, |b|);
    forall q: seq<(nat, nat)> | WarpingPath(q, |a|, |b|) && Inside(q, |a|, |b|)
      ensures Leq(Cell(a, b, |a|, |b|), Fin(PathCost(a, b, q)))
    {
      NoPathIsCheaper(a, b, q, |a|, |b|);
    }
  }

  predicate Exceeds(a: seq<real>, b: seq<real>, at: (nat, nat), threshold: Cost)
    requires at.0 < |a| && at.1 < |b|
  {
    threshold.Fin? && Gap(a[at.0], b[at.1]) > threshold.value
  }

  lemma TableEdges(a: seq<real>, b: seq<real>)
    ensures forall i | 0 <= i <= |a| :: Cell(a, b, i, 0) == if i == 0 then Fin(0.0) else Infinite
    ensures forall j | 0 <= j <= |b| :: Cell(a, b, 0, j) == if j == 0 then Fin(0.0) else Infinite
  {
  }

  method FillTable(a: seq<real>, b: seq<real>) returns (cost: array2<Cost>)
    ensures fresh(cost) && cost.Length0 == |a| + 1 && cost.Length1 == |b| + 1
    ensures forall i, j | 0 <= i <= |a| && 0 <= j <= |b| :: cost[i, j] == Cell(a, b, i, j)
  {
    hide Cell, Gap, Min, Leq, Plus;
    TableEdges(a, b);
    cost := new Cost[|a| + 1, |b| + 1]((i, j) => Infinite);
    cost[0, 0] := Fin(0.0);
    for i := 1 to |a| + 1
      invariant forall x, y | 0 <= x < i && 0 <= y <= |b| :: cost[x, y] == Cell(a, b, x, y)
      invariant forall x | i <= x <= |a| :: cost[x, 0] == Infinite
    {
      for j := 1 to |b| + 1
        invariant forall x, y | 0 <= x < i && 0 <= y <= |b| :: cost[x, y] == Cell(a, b, x, y)
        invariant forall y | 0 <= y < j :: cost[i, y] == Cell(a, b, i, y)
        invariant forall x | i < x <= |a| :: cost[x, 0] == Infinite
      {
        CellUnfolds(a, b, i, j);
        var d := Gap(a[i - 1], b[j - 1]);
        var best := Min(Min(cost[i - 1, j - 1], cost[i - 1, j]), cost[i, j - 1]);
        cost[i, j] := Plus(d, best);
      }
    }
  }

  function Reversed<T>(s: seq<T>): seq<T>
  {
    if s == [] then [] else Reversed(s[1..]) + [s[0]]
  }

  lemma {:induction false} ReversedAppend<T>(s: seq<T>, x: T)
    ensures Reversed(s + [x]) == [x] + Reversed(s)
  {
    if s == [] {
      assert s + [x] == [x] && [x][1..] == [];
    } else {
      assert (s + [x])[1..] == s[1..] + [x];
      ReversedAppend(s[1..], x);
    }
  }

  lemma TracedUnfolds(a: seq<real>, b: seq<real>, i: nat, j: nat)
    requires 0 < i <= |a| && 0 < j <= |b|
    ensures var (x, y) := Previous(a, b, i, j);
            Traced(a, b, i, j) == Traced(a, b, x, y) + [(i - 1, j - 1)]
  {
  }

  lemma TracedEnds(a: seq<real>, b: seq<real>)
    ensures forall i | 0 <= i <= |a| :: Traced(a, b, i, 0) == []
    ensures forall j | 0 <= j <= |b| :: Traced(a, b, 0, j) == []
  {
  }

  method TraceBack(a: seq<real>, b: seq<real>, cost: array2<Cost>) returns (path: seq<(nat, nat)>)
    requires cost.Length0 == |a| + 1 && cost.Length1 == |b| + 1
    requires forall i, j | 0 <= i <= |a| && 0 <= j <= |b| :: cost[i, j] == Cell(a, b, i, j)
    ensures path == Traced(a, b, |a|, |b|)
  {
    hide Cell, Traced;
    path := [];
    TracedEnds(a, b);
    var i: nat, j: nat := |a|, |b|;
    while i > 0 && j > 0
      invariant i <= |a| && j <= |b|
      invariant Traced(a, b, |a|, |b|) == Traced(a, b, i, j) + Reversed(path)
      decreases i + j
    {
      ReversedAppend(path, (i - 1, j - 1));
      TracedUnfolds(a, b, i, j);
      path := path + [(i - 1, j - 1)];
      var diag, up, left := cost[i - 1, j - 1], cost[i - 1, j], cost[i, j - 1];
      if Leq(diag, up) && Leq(diag, left) {
        i, j := i - 1, j - 1;
      } else if Leq(up, left) {
        i := i - 1;
      } else {
        j := j - 1;
      }
    }
    path := Reversed(path);
  }

  /** Two empty series are at distance 0 and exactly one empty series at infinity, with no path.
      Otherwise the path is the tie-broken traceback, a cheapest alignment, and the distance its cost;
      the divergence is the first aligned pair past the threshold. */
  method Align(a: seq<real>, b: seq<real>, threshold: Cost) returns (r: Alignment)
    ensures a == [] || b == [] ==> r == Alignment(if a == b then Fin(0.0) else Infinite, [], None)
    ensures r.distance == Cell(a, b, |a|, |b|) && r.path == Traced(a, b, |a|, |b|)
    ensures a != [] && b != [] ==>
              && IsBest(a, b, r.path, r.distance)
              && (r.divergence.None? ==> forall k | 0 <= k < |r.path| :: !Exceeds(a, b, r.path[k], threshold))
              && (r.divergence.Some? ==>
                    && r.divergence.value < |r.path| && Exceeds(a, b, r.path[r.divergence.value], threshold)
                    && forall k | 0 <= k < r.divergence.value :: !Exceeds(a, b, r.path[k], threshold))
  {
    hide WarpingPath, PathCost, Traced, Cell;
    var n, m := |a|, |b|;
    if n == 0 || m == 0 {
      EmptyCells(a, b);
      return Alignment(if n == m then Fin(0.0) else Infinite, [], None);
    }
    var cost := FillTable(a, b);
    var path := TraceBack(a, b, cost);
    TracedIsBest(a, b);
    var divergence: Option<nat> := None;
    var k := 0;
    while k < |path| && divergence.None?
      invariant k <= |path|
      invariant divergence.None? ==> forall l | 0 <= l < k :: !Exceeds(a, b, path[l], threshold)
      invariant divergence.Some? ==>
                  && divergence.value < |path| && Exceeds(a, b, path[divergence.value], threshold)
                  && forall l | 0 <= l < divergence.value :: !Exceeds(a, b, path[l], threshold)
      decreases |path| - k, if divergence.None? then 1 else 0
    {
      if Exceeds(a, b, path[k], threshold) {
        divergence := Some(k);
      } else {
        k := k + 1;
      }
    }
    return Alignment(cost[n, m], path, divergence);
  }

  lemma EmptyCells(a: seq<real>, b: seq<real>)
    requires a == [] || b == []
    ensures Cell(a, b, |a|, |b|) == if a == b then Fin(0.0) else Infinite
    ensures Traced(a, b, |a|, |b|) == []
  {
  }

  // ----- what the distance means -----

  /** Two single samples are as far apart as their difference. */
  lemma SingleSamples(x: real, d: real)
    requires d >= 0.0
    ensures Cell([x], [x + d], 1, 1) == Fin(d)
  {
    GapMeasures(x, d);
    EdgeCells([x], [x + d], 0, 0);
    EdgeCells([x], [x + d], 0, 1);
    EdgeCells([x], [x + d], 1, 0);
    CellUnfolds([x], [x + d], 1, 1);
  }

  lemma DiagonalStep(gap: real, diag: Cost, up: Cost, left: Cost, so: real, d: real)
    requires Leq(diag, Fin(so)) && gap <= d
    ensures Leq(Plus(gap, Min(Min(diag, up), left)), Fin(so + d))
  {
  }

  /** `d` taken `n` times. */
  function Times(n: nat, d: real): (r: real)
    ensures r == n as real * d
  {
    if n == 0 then 0.0 else Times(n - 1, d) + d
  }

  /** Series that track each other within `d`, step for step, are within `d` a sample. */
  lemma {:induction false} TrackedWithin(a: seq<real>, b: seq<real>, d: real, i: nat)
    requires i <= |a| && i <= |b| && forall k | 0 <= k < i :: Gap(a[k], b[k]) <= d
    ensures Leq(Cell(a, b, i, i), Fin(Times(i, d)))
  {
    hide Cell, Gap, Min, Leq, Plus;
    if i == 0 {
      WithinNothing(a, b);
    } else {
      TrackedWithin(a, b, d, i - 1);
      CellUnfolds(a, b, i, i);
      var diag, up, left := Cell(a, b, i - 1, i - 1), Cell(a, b, i - 1, i), Cell(a, b, i, i - 1);
      DiagonalStep(Gap(a[i - 1], b[i - 1]), diag, up, left, Times(i - 1, d), d);
    }
  }

  lemma WithinNothing(a: seq<real>, b: seq<real>)
    ensures Leq(Cell(a, b, 0, 0), Fin(0.0))
  {
  }

  /** A pair is past a threshold exactly if its samples differ by more; none is past infinity. */
  lemma ExceedsMeans(a: seq<real>, b: seq<real>, at: (nat, nat), t: real)
    requires at.0 < |a| && at.1 < |b|
    ensures Exceeds(a, b, at, Fin(t)) <==> a[at.0] - b[at.1] > t || b[at.1] - a[at.0] > t
    ensures !Exceeds(a, b, at, Infinite)
  {
  }

  lemma {:induction false} Symmetric(a: seq<real>, b: seq<real>, i: nat, j: nat)
    requires i <= |a| && j <= |b|
    ensures Cell(a, b, i, j) == Cell(b, a, j, i)
    decreases i + j
  {
    hide Min, Plus, Gap;
    if i > 0 && j > 0 {
      Symmetric(a, b, i - 1, j - 1);
      Symmetric(a, b, i - 1, j);
      Symmetric(a, b, i, j - 1);
      MinSwaps(Cell(a, b, i - 1, j - 1), Cell(a, b, i - 1, j), Cell(a, b, i, j - 1));
      GapSwaps(a[i - 1], b[j - 1]);
    }
  }

  lemma GapSwaps(x: real, y: real)
    ensures Gap(x, y) == Gap(y, x)
  {
  }

  lemma MinSwaps(x: Cost, y: Cost, z: Cost)
    ensures Min(Min(x, y), z) == Min(Min(x, z), y)
  {
  }

  /** A series with every run of equal samples shrunk to one. */
  function Shrunk(s: seq<real>): (r: seq<real>)
    ensures |r| > 0 <==> |s| > 0
    ensures |s| > 0 ==> r[|r| - 1] == s[|s| - 1]
  {
    if |s| <= 1 then s
    else
      var n := |s| - 1;
      if s[n] == s[n - 1] then Shrunk(s[..n]) else Shrunk(s[..n]) + [s[n]]
  }

  predicate Repeats(s: seq<real>, i: nat)
    requires 0 < i <= |s|
  {
    i > 1 && s[i - 1] == s[i - 2]
  }

  lemma ShrunkStep(s: seq<real>, i: nat)
    requires 0 < i <= |s|
    ensures Shrunk(s[..i]) == if Repeats(s, i) then Shrunk(s[..i - 1]) else Shrunk(s[..i - 1]) + [s[i - 1]]
  {
    assert i > 1 ==> s[..i][..i - 1] == s[..i - 1];
    assert i == 1 ==> s[..i] == [s[0]] && s[..0] == [];
  }

  lemma {:induction false} CellNotNegative(a: seq<real>, b: seq<real>, i: nat, j: nat)
    requires i <= |a| && j <= |b|
    ensures Leq(Fin(0.0), Cell(a, b, i, j))
    decreases i + j
  {
    if i > 0 && j > 0 {
      CellNotNegative(a, b, i - 1, j - 1);
      CellNotNegative(a, b, i - 1, j);
      CellNotNegative(a, b, i, j - 1);
    }
  }

  lemma ZeroCell(a: seq<real>, b: seq<real>, i: nat, j: nat)
    requires 0 < i <= |a| && 0 < j <= |b|
    ensures Cell(a, b, i, j) == Fin(0.0) <==>
              && a[i - 1] == b[j - 1]
              && (Cell(a, b, i - 1, j - 1) == Fin(0.0) || Cell(a, b, i - 1, j) == Fin(0.0)
                  || Cell(a, b, i, j - 1) == Fin(0.0))
  {
    CellNotNegative(a, b, i - 1, j - 1);
    CellNotNegative(a, b, i - 1, j);
    CellNotNegative(a, b, i, j - 1);
  }

  lemma {:induction false} ZeroMeansShrunkAlike(a: seq<real>, b: seq<real>, i: nat, j: nat)
    requires i <= |a| && j <= |b|
    ensures Cell(a, b, i, j) == Fin(0.0) <==> Shrunk(a[..i]) == Shrunk(b[..j])
    decreases i + j
  {
    hide Cell, Shrunk;
    if i > 0 && j > 0 {
      ZeroMeansShrunkAlike(a, b, i - 1, j - 1);
      ZeroMeansShrunkAlike(a, b, i - 1, j);
      ZeroMeansShrunkAlike(a, b, i, j - 1);
      ZeroStep(a, b, i, j);
    } else {
      EdgeCells(a, b, i, j);
      assert |a[..i]| == i && |b[..j]| == j;
      assert i == 0 && j == 0 ==> a[..i] == b[..j];
    }
  }

  lemma ZeroStep(a: seq<real>, b: seq<real>, i: nat, j: nat)
    requires 0 < i <= |a| && 0 < j <= |b|
    requires Cell(a, b, i - 1, j - 1) == Fin(0.0) <==> Shrunk(a[..i - 1]) == Shrunk(b[..j - 1])
    requires Cell(a, b, i - 1, j) == Fin(0.0) <==> Shrunk(a[..i - 1]) == Shrunk(b[..j])
    requires Cell(a, b, i, j - 1) == Fin(0.0) <==> Shrunk(a[..i]) == Shrunk(b[..j - 1])
    ensures Cell(a, b, i, j) == Fin(0.0) <==> Shrunk(a[..i]) == Shrunk(b[..j])
  {
    hide Cell, Shrunk, Repeats;
    ZeroCell(a, b, i, j);
    var pr, qr := Repeats(a, i), Repeats(b, j);
    RepeatsLast(a, i);
    RepeatsLast(b, j);
    ShrunkStep(a, i);
    ShrunkStep(b, j);
    ShrunkCases(Shrunk(a[..i - 1]), pr, a[i - 1], Shrunk(b[..j - 1]), qr, b[j - 1]);
  }

  lemma RepeatsLast(s: seq<real>, i: nat)
    requires 0 < i <= |s|
    ensures var p := Shrunk(s[..i - 1]); Repeats(s, i) <==> p != [] && p[|p| - 1] == s[i - 1]
  {
  }

  /** How one more sample on either side can make two shrunk series equal. */
  lemma ShrunkCases(p: seq<real>, pr: bool, x: real, q: seq<real>, qr: bool, y: real)
    requires pr <==> p != [] && p[|p| - 1] == x
    requires qr <==> q != [] && q[|q| - 1] == y
    ensures var p', q' := if pr then p else p + [x], if qr then q else q + [y];
            p' == q' <==> x == y && (p == q || p == q' || p' == q)
  {
    var p', q' := if pr then p else p + [x], if qr then q else q + [y];
    assert p' != [] && p'[|p'| - 1] == x && q' != [] && q'[|q'| - 1] == y;
    if !pr && !qr && p' == q' {
      assert p == p'[..|p'| - 1] && q == q'[..|q'| - 1];
    }
  }

  /** Two series are at distance zero exactly when they differ only in how long they hold each value;
      so identical series are, and the distance is the same both ways. */
  lemma ZeroDistance(a: seq<real>, b: seq<real>)
    ensures Cell(a, b, |a|, |b|) == Fin(0.0) <==> Shrunk(a) == Shrunk(b)
    ensures Cell(a, a, |a|, |a|) == Fin(0.0)
    ensures Cell(a, b, |a|, |b|) == Cell(b, a, |b|, |a|)
  {
    hide Cell, Shrunk;
    ZeroMeansShrunkAlike(a, b, |a|, |b|);
    ZeroMeansShrunkAlike(a, a, |a|, |a|);
    Symmetric(a, b, |a|, |b|);
    assert a[..|a|] == a && b[..|b|] == b;
  }

  // ----- the longest common subsequence -----

  /** Positions of a common subsequence, rising on both sides. */
  predicate Matching<T(==)>(a: seq<T>, b: seq<T>, i: nat, j: nat, p: seq<(nat, nat)>)
    requires i <= |a| && j <= |b|
  {
    && (forall k | 0 <= k < |p| :: p[k].0 < i && p[k].1 < j && a[p[k].0] == b[p[k].1])
    && forall k, l | 0 <= k < l < |p| :: p[k].0 < p[l].0 && p[k].1 < p[l].1
  }

  function Lcs<T(==)>(a: seq<T>, b: seq<T>, i: nat, j: nat): nat
    requires i <= |a| && j <= |b|
    decreases i + j
  {
    if i == 0 || j == 0 then 0
    else if a[i - 1] == b[j - 1] then Lcs(a, b, i - 1, j - 1) + 1
    else if Lcs(a, b, i - 1, j) >= Lcs(a, b, i, j - 1) then Lcs(a, b, i - 1, j)
    else Lcs(a, b, i, j - 1)
  }

  lemma {:induction false} NoLongerMatching<T>(a: seq<T>, b: seq<T>, i: nat, j: nat, p: seq<(nat, nat)>)
    requires i <= |a| && j <= |b| && Matching(a, b, i, j, p)
    ensures |p| <= Lcs(a, b, i, j)
    decreases i + j
  {
    if p == [] {
    } else {
      var n := |p| - 1;
      assert p[n].0 < i && p[n].1 < j;
      if a[i - 1] == b[j - 1] {
        MatchingShrinks(a, b, i, j, p, n, i - 1, j - 1);
        NoLongerMatching(a, b, i - 1, j - 1, p[..n]);
      } else if p[n].0 < i - 1 {
        MatchingShrinks(a, b, i, j, p, n + 1, i - 1, j);
        assert p[..n + 1] == p;
        NoLongerMatching(a, b, i - 1, j, p);
      } else {
        assert p[n].1 < j - 1;
        MatchingShrinks(a, b, i, j, p, n + 1, i, j - 1);
        assert p[..n + 1] == p;
        NoLongerMatching(a, b, i, j - 1, p);
      }
    }
  }

  lemma MatchingShrinks<T>(a: seq<T>, b: seq<T>, i: nat, j: nat, p: seq<(nat, nat)>, n: nat, i': nat, j': nat)
    requires i' <= i <= |a| && j' <= j <= |b| && Matching(a, b, i, j, p) && n <= |p|
    requires if n < |p| then p[n].0 <= i' && p[n].1 <= j' else n > 0 ==> p[n - 1].0 < i' && p[n - 1].1 < j'
    ensures Matching(a, b, i', j', p[..n])
  {
    forall k | 0 <= k < n
      ensures p[k].0 < i' && p[k].1 < j'
    {
      if n < |p| {
        assert p[k].0 < p[n].0 && p[k].1 < p[n].1;
      } else if k < n - 1 {
        assert p[k].0 < p[n - 1].0 && p[k].1 < p[n - 1].1;
      }
    }
  }

  lemma {:induction false} LongestMatching<T>(a: seq<T>, b: seq<T>, i: nat, j: nat) returns (p: seq<(nat, nat)>)
    requires i <= |a| && j <= |b|
    ensures Matching(a, b, i, j, p) && |p| == Lcs(a, b, i, j)
    decreases i + j
  {
    if i == 0 || j == 0 {
      p := [];
    } else if a[i - 1] == b[j - 1] {
      p := LongestMatching(a, b, i - 1, j - 1);
      p := p + [(i - 1, j - 1)];
    } else if Lcs(a, b, i - 1, j) >= Lcs(a, b, i, j - 1) {
      p := LongestMatching(a, b, i - 1, j);
    } else {
      p := LongestMatching(a, b, i, j - 1);
    }
  }

  /** It is the length of a longest common subsequence: one has it, and none is longer. */
  lemma LcsIsLongest<T>(a: seq<T>, b: seq<T>)
    ensures exists p :: Matching(a, b, |a|, |b|, p) && |p| == Lcs(a, b, |a|, |b|)
    ensures forall p | Matching(a, b, |a|, |b|, p) :: |p| <= Lcs(a, b, |a|, |b|)
  {
    hide Matching, Lcs;
    var longest := LongestMatching(a, b, |a|, |b|);
    forall p | Matching(a, b, |a|, |b|, p)
      ensures |p| <= Lcs(a, b, |a|, |b|)
    {
      NoLongerMatching(a, b, |a|, |b|, p);
    }
  }

  lemma LcsEdges<T>(a: seq<T>, b: seq<T>)
    ensures forall i | 0 <= i <= |a| :: Lcs(a, b, i, 0) == 0
    ensures forall j | 0 <= j <= |b| :: Lcs(a, b, 0, j) == 0
  {
  }

  lemma LcsCell<T>(a: seq<T>, b: seq<T>, i: nat, j: nat)
    requires 0 < i <= |a| && 0 < j <= |b|
    ensures Lcs(a, b, i, j) ==
            if a[i - 1] == b[j - 1] then Lcs(a, b, i - 1, j - 1) + 1
            else if Lcs(a, b, i - 1, j) >= Lcs(a, b, i, j - 1) then Lcs(a, b, i - 1, j)
            else Lcs(a, b, i, j - 1)
  {
  }

  method LcsLen<T(==)>(a: seq<T>, b: seq<T>) returns (r: nat)
    ensures r == Lcs(a, b, |a|, |b|)
  {
    hide Lcs;
    LcsEdges(a, b);
    var n, m := |a|, |b|;
    if n == 0 || m == 0 {
      return 0;
    }
    var dp := new nat[n + 1, m + 1]((i, j) => 0);
    for i := 1 to n + 1
      invariant forall x, y | 0 <= x < i && 0 <= y <= m :: dp[x, y] == Lcs(a, b, x, y)
      invariant forall x | i <= x <= n :: dp[x, 0] == 0
    {
      for j := 1 to m + 1
        invariant forall x, y | 0 <= x < i && 0 <= y <= m :: dp[x, y] == Lcs(a, b, x, y)
        invariant forall y | 0 <= y < j :: dp[i, y] == Lcs(a, b, i, y)
        invariant forall x | i < x <= n :: dp[x, 0] == 0
      {
        LcsCell(a, b, i, j);
        dp[i, j] :=
          if a[i - 1] == b[j - 1] then dp[i - 1, j - 1] + 1
          else if dp[i - 1, j] >= dp[i, j - 1] then dp[i - 1, j] else dp[i, j - 1];
      }
    }
    return dp[n, m];
  }
}
