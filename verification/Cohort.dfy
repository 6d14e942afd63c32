/** Statistics of one cohort of clock offsets, and the inequality that decides when the
    5-sigma rule of `pick_best` can fire. Values are exact reals; `sd > 0 && |x - med| > 5 * sd`
    is compared through squares, so no root is taken. */
module Cohort {
  import opened Finite
  import opened Sorting

  function Sum(xs: seq<real>): real {
    if xs == [] then 0.0 else xs[0] + Sum(xs[1..])
  }

  function Square(x: real): real { x * x }

  /** Sum of squared deviations from `c`. */
  function SquaredDeviations(xs: seq<real>, c: real): real {
    if xs == [] then 0.0 else Square(xs[0] - c) + SquaredDeviations(xs[1..], c)
  }

  function Mean(xs: seq<real>): real {
    if xs == [] then 0.0 else Sum(xs) / (|xs| as real)
  }

  /** Square of the population standard deviation. */
  function Variance(xs: seq<real>): real {
    if xs == [] then 0.0 else SquaredDeviations(xs, Mean(xs)) / (|xs| as real)
  }

  function Identity(x: real): real { x }

  function Median(xs: seq<real>): real {
    if xs == [] then 0.0
    else
      SameElements(Identity, xs);
      var v := StableSort(Identity, xs);
      var n := |v|;
      if n % 2 == 1 then v[n / 2] else (v[n / 2 - 1] + v[n / 2]) / 2.0
  }

  const OUTLIER_STDDEV_THRESHOLD := 5.0

  /** Does `best` lie more than five standard deviations from the median of its cohort? */
  predicate IsOutlier(xs: seq<real>, best: real) {
    && |xs| >= 3
    && Variance(xs) > 0.0
    && Square(best - Median(xs)) > Square(OUTLIER_STDDEV_THRESHOLD) * Variance(xs)
  }

  // ----- the outlier rule, said without mean, variance or sorting -----

  /** Squared differences of `x` to the values of `ys`, added up. */
  function SpreadFrom(x: real, ys: seq<real>): real {
    if ys == [] then 0.0 else Square(x - ys[0]) + SpreadFrom(x, ys[1..])
  }

  /** Squared differences of all pairs of a cohort, each pair once, added up. */
  function PairSpread(xs: seq<real>): real {
    if xs == [] then 0.0 else SpreadFrom(xs[0], xs[1..]) + PairSpread(xs[1..])
  }

  function SumSquares(xs: seq<real>): real {
    if xs == [] then 0.0 else Square(xs[0]) + SumSquares(xs[1..])
  }

  /** The spread around `x` of `n` values with this sum and sum of squares. */
  function SpreadByMoments(n: real, x: real, sum: real, squares: real): real {
    squares - 2.0 * x * sum + n * (x * x)
  }

  function PairsByMoments(n: real, sum: real, squares: real): real { n * squares - sum * sum }

  lemma OneMoreSpread(n: real, x: real, y: real, sum: real, squares: real)
    ensures Square(x - y) + SpreadByMoments(n, x, sum, squares)
      == SpreadByMoments(n + 1.0, x, y + sum, Square(y) + squares)
  {
  }

  lemma OneMoreValue(n: real, x: real, sum: real, squares: real)
    ensures SpreadByMoments(n, x, sum, squares) + PairsByMoments(n, sum, squares)
      == PairsByMoments(n + 1.0, x + sum, Square(x) + squares)
  {
  }

  lemma SpreadAroundMean(n: real, c: real, sum: real, squares: real)
    requires n * c == sum
    ensures n * SpreadByMoments(n, c, sum, squares) == PairsByMoments(n, sum, squares)
  {
    assert n * (squares - 2.0 * c * sum + n * (c * c)) == n * squares - 2.0 * (n * c) * sum + (n * c) * (n * c);
  }

  lemma NoSpread(x: real)
    ensures SpreadFrom(x, []) == SpreadByMoments(0.0, x, Sum([]), SumSquares([]))
    ensures PairSpread([]) == PairsByMoments(0.0, Sum([]), SumSquares([]))
  {
  }

  lemma UnfoldSums(x: real, ys: seq<real>)
    requires ys != []
    ensures SpreadFrom(x, ys) == Square(x - ys[0]) + SpreadFrom(x, ys[1..])
    ensures PairSpread(ys) == SpreadFrom(ys[0], ys[1..]) + PairSpread(ys[1..])
    ensures Sum(ys) == ys[0] + Sum(ys[1..]) && SumSquares(ys) == Square(ys[0]) + SumSquares(ys[1..])
    ensures |ys| as real == |ys[1..]| as real + 1.0
  {
  }

  lemma {:induction false} SpreadIsByMoments(x: real, ys: seq<real>)
    ensures SpreadFrom(x, ys) == SpreadByMoments(|ys| as real, x, Sum(ys), SumSquares(ys))
  {
    hide SpreadFrom, SpreadByMoments, Sum, SumSquares, Square;
    if ys == [] {
      NoSpread(x);
    } else {
      SpreadIsByMoments(x, ys[1..]);
      UnfoldSums(x, ys);
      OneMoreSpread(|ys[1..]| as real, x, ys[0], Sum(ys[1..]), SumSquares(ys[1..]));
    }
  }

  lemma {:induction false} PairsAreByMoments(xs: seq<real>)
    ensures PairSpread(xs) == PairsByMoments(|xs| as real, Sum(xs), SumSquares(xs))
  {
    hide SpreadFrom, PairSpread, SpreadByMoments, PairsByMoments, Sum, SumSquares, Square;
    if xs == [] {
      NoSpread(0.0);
    } else {
      PairsAreByMoments(xs[1..]);
      SpreadIsByMoments(xs[0], xs[1..]);
      UnfoldSums(0.0, xs);
      OneMoreValue(|xs[1..]| as real, xs[0], Sum(xs[1..]), SumSquares(xs[1..]));
    }
  }

  lemma {:induction false} DeviationsAreSpread(xs: seq<real>, c: real)
    ensures SquaredDeviations(xs, c) == SpreadFrom(c, xs)
  {
    if xs != [] {
      DeviationsAreSpread(xs[1..], c);
      assert Square(xs[0] - c) == Square(c - xs[0]);
    }
  }

  lemma MeanTimesCount(n: real, sum: real, mean: real)
    requires n >= 1.0 && mean == sum / n
    ensures n * mean == sum
  {
  }

  lemma ScaledVariance(n: real, dev: real, v: real, pairs: real)
    requires n >= 1.0 && v == dev / n && n * dev == pairs
    ensures n * n * v == pairs
  {
    assert n * v == dev;
    assert n * n * v == n * (n * v);
  }

  /** `n^2` times the variance is the sum of squared differences of all pairs. */
  lemma VarianceIsPairSpread(xs: seq<real>)
    requires xs != []
    ensures |xs| as real * |xs| as real * Variance(xs) == PairSpread(xs)
  {
    hide SquaredDeviations, Sum, PairSpread, SpreadFrom, SumSquares, SpreadByMoments, PairsByMoments;
    var n := |xs| as real;
    DeviationsAreSpread(xs, Mean(xs));
    SpreadIsByMoments(Mean(xs), xs);
    PairsAreByMoments(xs);
    MeanTimesCount(n, Sum(xs), Mean(xs));
    SpreadAroundMean(n, Mean(xs), Sum(xs), SumSquares(xs));
    hide Mean;
    ScaledVariance(n, SquaredDeviations(xs, Mean(xs)), Variance(xs), PairSpread(xs));
  }

  lemma ScaleComparison(n: real, d: real, v: real, p: real)
    requires n >= 1.0 && n * n * v == p
    ensures d > 25.0 * v <==> n * n * d > 25.0 * p
    ensures v > 0.0 <==> p > 0.0
  {
    var k := n * n;
    assert k > 0.0;
    assert 25.0 * p == k * (25.0 * v);
    assert k * d - k * (25.0 * v) == k * (d - 25.0 * v);
  }

  /** At least three values, not all equal, and `n^2` times the squared distance of `best` from the
      median exceeds 25 times the squared differences of all pairs. */
  predicate IsFarOut(xs: seq<real>, best: real) {
    var n, away := |xs| as real, best - Median(xs);
    |xs| >= 3 && PairSpread(xs) > 0.0 && n * n * (away * away) > 25.0 * PairSpread(xs)
  }

  /** The rule exactly, for every cohort and every value. */
  lemma OutlierExactlyWhen(xs: seq<real>, best: real)
    ensures IsOutlier(xs, best) <==> IsFarOut(xs, best)
  {
    hide Variance, Median, PairSpread;
    if |xs| >= 3 {
      VarianceIsPairSpread(xs);
      ScaleComparison(|xs| as real, Square(best - Median(xs)), Variance(xs), PairSpread(xs));
      assert Square(OUTLIER_STDDEV_THRESHOLD) == 25.0;
    }
  }

  /** `v` has rank `k`: at most `k` values are smaller, more than `k` are not larger. */
  predicate HasRank(xs: seq<real>, v: real, k: nat) { |Smaller(xs, v)| <= k < |NotLarger(xs, v)| }

  function Smaller(xs: seq<real>, v: real): set<nat> { set i: nat | i < |xs| && xs[i] < v }

  function NotLarger(xs: seq<real>, v: real): set<nat> { set i: nat | i < |xs| && xs[i] <= v }

  /** The median is the mean of the two middle ranks, which coincide for an odd number of values. */
  lemma MedianIsMiddle(xs: seq<real>) returns (low: real, high: real)
    requires xs != []
    ensures HasRank(xs, low, (|xs| - 1) / 2) && HasRank(xs, high, |xs| / 2)
    ensures 2.0 * Median(xs) == low + high
  {
    var v := StableSort(Identity, xs);
    StableSortSpec(Identity, xs);
    low, high := v[(|xs| - 1) / 2], v[|xs| / 2];
    RankInSorted(xs, v, (|xs| - 1) / 2);
    RankInSorted(xs, v, |xs| / 2);
  }

  /** The value at place `k` of the sorted list has rank `k` in the original one. */
  lemma RankInSorted(xs: seq<real>, v: seq<real>, k: nat)
    requires multiset(v) == multiset(xs) && |v| == |xs| && Ordered(Identity, v) && k < |v|
    ensures HasRank(xs, v[k], k)
  {
    var x := v[k];
    SizesIgnoreOrder(xs, v, x);
    forall i | i in Smaller(v, x) ensures i in UpTo(k) {
      InUpTo(k, i);
      assert k <= i ==> Identity(v[k]) <= Identity(v[i]);
    }
    forall i | i in UpTo(k + 1) ensures i in NotLarger(v, x) {
      InUpTo(k + 1, i);
      if i < k { assert Identity(v[i]) <= Identity(v[k]); }
    }
    SubsetIsNotLarger(Smaller(v, x), UpTo(k));
    SubsetIsNotLarger(UpTo(k + 1), NotLarger(v, x));
  }

  function CountIf(xs: seq<real>, p: real -> bool): nat {
    if xs == [] then 0 else CountIf(xs[..|xs| - 1], p) + if p(xs[|xs| - 1]) then 1 else 0
  }

  function Where(xs: seq<real>, p: real -> bool): set<nat> { set i: nat | i < |xs| && p(xs[i]) }

  lemma WhereOneMore(xs: seq<real>, p: real -> bool)
    requires xs != []
    ensures var n := |xs| - 1;
      n !in Where(xs[..n], p) && Where(xs, p) == Where(xs[..n], p) + if p(xs[n]) then {n} else {}
  {
  }

  lemma {:induction false} CountIfIsSize(xs: seq<real>, p: real -> bool)
    ensures |Where(xs, p)| == CountIf(xs, p)
  {
    if xs == [] {
      assert Where(xs, p) == {};
    } else {
      WhereOneMore(xs, p);
      hide Where;
      CountIfIsSize(xs[..|xs| - 1], p);
    }
  }

  lemma {:induction false} CountIfAppend(xs: seq<real>, ys: seq<real>, p: real -> bool)
    ensures CountIf(xs + ys, p) == CountIf(xs, p) + CountIf(ys, p)
  {
    if ys == [] {
      assert xs + ys == xs;
    } else {
      var n := |ys| - 1;
      CountIfAppend(xs, ys[..n], p);
      assert (xs + ys)[..|xs + ys| - 1] == xs + ys[..n];
    }
  }

  lemma CountIfWithout(ys: seq<real>, k: nat, p: real -> bool)
    requires k < |ys|
    ensures CountIf(ys, p) == CountIf(ys[..k] + ys[k + 1..], p) + if p(ys[k]) then 1 else 0
    ensures multiset(ys) == multiset{ys[k]} + multiset(ys[..k] + ys[k + 1..])
  {
    hide CountIf;
    assert ys == ys[..k] + ([ys[k]] + ys[k + 1..]);
    CountIfAppend(ys[..k], [ys[k]] + ys[k + 1..], p);
    CountIfAppend([ys[k]], ys[k + 1..], p);
    CountIfAppend(ys[..k], ys[k + 1..], p);
    CountIfOne(ys[k], p);
  }

  lemma CountIfLast(xs: seq<real>, p: real -> bool)
    requires xs != []
    ensures CountIf(xs, p) == CountIf(xs[..|xs| - 1], p) + if p(xs[|xs| - 1]) then 1 else 0
    ensures multiset(xs) == multiset(xs[..|xs| - 1]) + multiset{xs[|xs| - 1]}
  {
    assert xs == xs[..|xs| - 1] + [xs[|xs| - 1]];
  }

  lemma CountIfOne(x: real, p: real -> bool)
    ensures CountIf([x], p) == if p(x) then 1 else 0
  {
    assert [x][..0] == [];
  }

  lemma SameRest(a: multiset<real>, b: multiset<real>, x: real)
    requires a + multiset{x} == multiset{x} + b
    ensures a == b
  {
    assert a == (a + multiset{x}) - multiset{x};
    assert b == (multiset{x} + b) - multiset{x};
  }

  lemma {:induction false} CountIfIgnoresOrder(xs: seq<real>, ys: seq<real>, p: real -> bool)
    requires multiset(xs) == multiset(ys)
    ensures CountIf(xs, p) == CountIf(ys, p)
    decreases |xs|
  {
    hide CountIf;
    if xs == [] {
      assert |multiset(ys)| == 0;
    } else {
      var n := |xs| - 1;
      assert xs[n] in multiset(ys);
      var k :| 0 <= k < |ys| && ys[k] == xs[n];
      var rest := ys[..k] + ys[k + 1..];
      CountIfWithout(ys, k, p);
      CountIfLast(xs, p);
      SameRest(multiset(xs[..n]), multiset(rest), xs[n]);
      CountIfIgnoresOrder(xs[..n], rest, p);
    }
  }

  lemma SizesIgnoreOrder(xs: seq<real>, ys: seq<real>, v: real)
    requires multiset(xs) == multiset(ys)
    ensures |Smaller(xs, v)| == |Smaller(ys, v)| && |NotLarger(xs, v)| == |NotLarger(ys, v)|
  {
    var below, upTo := (x: real) => x < v, (x: real) => x <= v;
    CountIfIsSize(xs, below);
    CountIfIsSize(ys, below);
    CountIfIgnoresOrder(xs, ys, below);
    CountIfIsSize(xs, upTo);
    CountIfIsSize(ys, upTo);
    CountIfIgnoresOrder(xs, ys, upTo);
    assert Smaller(xs, v) == Where(xs, below);
    assert Smaller(ys, v) == Where(ys, below);
    assert NotLarger(xs, v) == Where(xs, upTo);
    assert NotLarger(ys, v) == Where(ys, upTo);
  }

  // ----- how many values lie on each side of the median -----

  /** Number of values at most `m` (`below`) or at least `m` (`!below`). */
  function CountSide(xs: seq<real>, m: real, below: bool): nat {
    if xs == [] then 0
    else (if (if below then xs[0] <= m else xs[0] >= m) then 1 else 0) + CountSide(xs[1..], m, below)
  }

  lemma {:induction false} CountSideAppend(xs: seq<real>, ys: seq<real>, m: real, below: bool)
    ensures CountSide(xs + ys, m, below) == CountSide(xs, m, below) + CountSide(ys, m, below)
  {
    if xs == [] {
      assert xs + ys == ys;
    } else {
      assert (xs + ys)[1..] == xs[1..] + ys;
      CountSideAppend(xs[1..], ys, m, below);
    }
  }

  lemma RemoveOne(ys: seq<real>, k: nat, m: real, below: bool)
    requires k < |ys|
    ensures CountSide(ys, m, below) == CountSide([ys[k]], m, below) + CountSide(ys[..k] + ys[k + 1..], m, below)
    ensures multiset(ys) == multiset{ys[k]} + multiset(ys[..k] + ys[k + 1..])
  {
    hide CountSide;
    assert ys == ys[..k] + ([ys[k]] + ys[k + 1..]);
    CountSideAppend(ys[..k], [ys[k]] + ys[k + 1..], m, below);
    CountSideAppend([ys[k]], ys[k + 1..], m, below);
    CountSideAppend(ys[..k], ys[k + 1..], m, below);
  }

  lemma {:induction false} CountSideIsPermutationInvariant(xs: seq<real>, ys: seq<real>, m: real, below: bool)
    requires multiset(xs) == multiset(ys)
    ensures CountSide(xs, m, below) == CountSide(ys, m, below)
  {
    hide CountSide;
    if xs == [] {
      assert |multiset(ys)| == 0;
    } else {
      assert xs[0] in multiset(ys);
      var k :| 0 <= k < |ys| && ys[k] == xs[0];
      RemoveOne(xs, 0, m, below);
      RemoveOne(ys, k, m, below);
      assert xs[..0] + xs[1..] == xs[1..];
      var rest := ys[..k] + ys[k + 1..];
      assert multiset(xs[1..]) == multiset(xs) - multiset{xs[0]} && multiset(rest) == multiset(ys) - multiset{xs[0]};
      CountSideIsPermutationInvariant(xs[1..], rest, m, below);
    }
  }

  lemma {:induction false} CountSideOfUniformBlock(xs: seq<real>, m: real, below: bool)
    requires forall k :: 0 <= k < |xs| ==> if below then xs[k] <= m else xs[k] >= m
    ensures CountSide(xs, m, below) == |xs|
  {
    if xs != [] {
      CountSideOfUniformBlock(xs[1..], m, below);
    }
  }

  /** At least half of a cohort lies at or below its median, and at least half at or above. */
  lemma HalfOnEachSideOfMedian(xs: seq<real>, below: bool)
    requires xs != []
    ensures 2 * CountSide(xs, Median(xs), below) >= |xs|
  {
    hide CountSide, StableSort;
    var v := StableSort(Identity, xs);
    StableSortSpec(Identity, xs);
    MiddleOfSorted(v, Median(xs));
    hide Median;
    var cut := if below then (|v| + 1) / 2 else |v| / 2;
    var left, right := v[..cut], v[cut..];
    assert v == left + right;
    CountSideAppend(left, right, Median(xs), below);
    if below {
      CountSideOfUniformBlock(left, Median(xs), below);
    } else {
      CountSideOfUniformBlock(right, Median(xs), below);
    }
    CountSideIsPermutationInvariant(v, xs, Median(xs), below);
  }

  lemma MiddleOfSorted(v: seq<real>, m: real)
    requires v != [] && Ordered(Identity, v)
    requires m == if |v| % 2 == 1 then v[|v| / 2] else (v[|v| / 2 - 1] + v[|v| / 2]) / 2.0
    ensures forall i :: 0 <= i < (|v| + 1) / 2 ==> v[i] <= m
    ensures forall i :: |v| / 2 <= i < |v| ==> m <= v[i]
  {
    var mid := |v| / 2;
    assert Identity(v[mid]) == v[mid];
    assert |v| % 2 == 0 ==> Identity(v[mid - 1]) <= Identity(v[mid]);
    assert |v| % 2 == 0 ==> v[mid - 1] <= m <= v[mid];
    forall i | 0 <= i < (|v| + 1) / 2 ensures v[i] <= m {
      assert i < mid ==> Identity(v[i]) <= Identity(v[mid]);
      assert |v| % 2 == 0 && i < mid - 1 ==> Identity(v[i]) <= Identity(v[mid - 1]);
    }
    forall i | |v| / 2 <= i < |v| ensures m <= v[i] {
      assert mid < i ==> Identity(v[mid]) <= Identity(v[i]);
    }
  }

  // ----- the median inequality -----

  lemma SquareIsMonotone(a: real, b: real)
    requires 0.0 <= a <= b || b <= a <= 0.0
    ensures Square(a) <= Square(b)
  {
    if a >= 0.0 {
      assert a * a <= a * b <= b * b;
    } else {
      assert (-a) * (-a) <= (-a) * (-b) <= (-b) * (-b);
    }
  }

  lemma SquareIsNonNegative(a: real)
    ensures Square(a) >= 0.0
  {
  }

  lemma {:induction false} SquaredDeviationsNonNegative(xs: seq<real>, c: real)
    ensures SquaredDeviations(xs, c) >= 0.0
  {
    if xs != [] {
      SquaredDeviationsNonNegative(xs[1..], c);
      SquareIsNonNegative(xs[0] - c);
    }
  }

  lemma OneMoreTerm(k: nat, q: real)
    ensures (k + 1) as real * q == k as real * q + q
  {
  }

  function Weighted(k: nat, q: real): real { k as real * q }

  lemma WeightedSteps(k: nat, q: real)
    ensures Weighted(0, q) == 0.0 && Weighted(k + 1, q) == Weighted(k, q) + q
  {
  }

  /** The values on the far side of `m` from `c` each deviate from `c` by at least `|m - c|`. */
  lemma {:induction false} FarSideDeviates(xs: seq<real>, c: real, m: real, below: bool)
    requires if below then c >= m else c <= m
    ensures SquaredDeviations(xs, c) >= Weighted(CountSide(xs, m, below), Square(m - c))
  {
    hide Square, Weighted;
    WeightedSteps(0, Square(m - c));
    if xs != [] {
      WeightedSteps(CountSide(xs[1..], m, below), Square(m - c));
      FarSideDeviates(xs[1..], c, m, below);
      SquareIsNonNegative(xs[0] - c);
      if if below then xs[0] <= m else xs[0] >= m {
        SquareIsMonotone(m - c, xs[0] - c);
      }
    }
  }

  lemma {:induction false} SplitOff(xs: seq<real>, i: nat, c: real, m: real, below: bool)
    requires i < |xs|
    ensures var rest := xs[..i] + xs[i + 1..];
            && SquaredDeviations(xs, c) == Square(xs[i] - c) + SquaredDeviations(rest, c)
            && CountSide(xs, m, below) == CountSide([xs[i]], m, below) + CountSide(rest, m, below)
  {
    hide Square;
    var rest := xs[..i] + xs[i + 1..];
    if i == 0 {
      assert rest == xs[1..];
    } else {
      SplitOff(xs[1..], i - 1, c, m, below);
      assert rest[1..] == xs[1..][..i - 1] + xs[1..][i..];
      assert rest[0] == xs[0];
    }
  }

  /** One value at distance `d` from `m` and `h` values at or beyond `m` (their deviations add up
      to `tail`) spread by at least `d^2 * h / (h + 1)` around the centre `m + u`. */
  lemma SpreadCentreBetween(d: real, u: real, count: nat, tail: real, s: real)
    requires tail >= Weighted(count, Square(-u)) && s == Square(d - u) + tail
    ensures (count as real + 1.0) * s >= count as real * Square(d)
  {
    var h := count as real;
    var gap := tail - h * Square(-u);
    CompleteTheSquare(h, d, u, gap);
    SquareIsNonNegative(d - (h + 1.0) * u);
    assert (h + 1.0) * gap >= 0.0;
    assert Square(-u) == Square(u);
  }

  lemma CompleteTheSquare(h: real, d: real, u: real, gap: real)
    ensures (h + 1.0) * (Square(d - u) + (gap + h * Square(u)))
      == h * Square(d) + Square(d - (h + 1.0) * u) + (h + 1.0) * gap
  {
  }

  /** The same when the centre lies on the far side of `m` itself. */
  lemma SpreadCentreBeyond(d: real, far: real, count: nat, tail: real, s: real)
    requires tail >= 0.0 && s == Square(far) + tail
    requires 0.0 <= d <= far || far <= d <= 0.0
    ensures (count as real + 1.0) * s >= count as real * Square(d)
  {
    var h := count as real;
    SquareIsMonotone(d, far);
    var gap := s - d * d;
    assert (h + 1.0) * gap >= 0.0;
    assert (h + 1.0) * s == h * (d * d) + d * d + (h + 1.0) * gap;
  }

  /** `(h + 1) * (squared deviations from c) >= h * d^2` for a value at distance `d` from `m` with
      `h` values on the other side of `m`, whatever the centre `c`. */
  lemma SpreadAroundAnyCentre(xs: seq<real>, i: nat, c: real, m: real, below: bool)
    requires i < |xs|
    requires if below then xs[i] > m else xs[i] < m
    ensures (CountSide(xs, m, below) as real + 1.0) * SquaredDeviations(xs, c)
         >= CountSide(xs, m, below) as real * Square(xs[i] - m)
  {
    hide Square, SquaredDeviations, Weighted;
    var rest := xs[..i] + xs[i + 1..];
    SplitOff(xs, i, c, m, below);
    assert CountSide([xs[i]], m, below) == 0;
    hide CountSide;
    var h, s, tail := CountSide(rest, m, below), SquaredDeviations(xs, c), SquaredDeviations(rest, c);
    if if below then c >= m else c <= m {
      FarSideDeviates(rest, c, m, below);
      assert xs[i] - c == (xs[i] - m) - (c - m) && m - c == -(c - m);
      SpreadCentreBetween(xs[i] - m, c - m, h, tail, s);
    } else {
      SquaredDeviationsNonNegative(rest, c);
      SpreadCentreBeyond(xs[i] - m, xs[i] - c, h, tail, s);
    }
  }

  lemma DivideOut(n: real, s: real, v: real)
    requires n >= 1.0 && s >= 0.0 && v == s / n
    ensures s == n * v && v >= 0.0
  {
  }

  lemma VarianceFacts(xs: seq<real>)
    requires xs != []
    ensures SquaredDeviations(xs, Mean(xs)) == |xs| as real * Variance(xs)
    ensures Variance(xs) >= 0.0
  {
    hide Square, SquaredDeviations, Mean;
    SquaredDeviationsNonNegative(xs, Mean(xs));
    DivideOut(|xs| as real, SquaredDeviations(xs, Mean(xs)), Variance(xs));
  }

  /** THE MEDIAN INEQUALITY: no value of a cohort of `n` is further from the median than
      `sqrt(n + 2)` standard deviations. */
  lemma MedianInequality(xs: seq<real>, x: real)
    requires x in xs
    ensures Square(x - Median(xs)) <= (|xs| as real + 2.0) * Variance(xs)
  {
    hide Square, SquaredDeviations, Mean, Median, Variance, CountSide;
    var i :| 0 <= i < |xs| && xs[i] == x;
    VarianceFacts(xs);
    var m := Median(xs);
    if x == m {
      ZeroSquare();
      assert x - m == 0.0;
      FinishMedianInequality(|xs|, |xs|, Variance(xs), 0.0);
    } else {
      HalfOnEachSideOfMedian(xs, x > m);
      SpreadAroundAnyCentre(xs, i, Mean(xs), m, x > m);
      FinishMedianInequality(|xs|, CountSide(xs, m, x > m), Variance(xs), Square(x - m));
    }
  }

  lemma ZeroSquare()
    ensures Square(0.0) == 0.0
  {
  }

  lemma FinishMedianInequality(n: nat, h: nat, v: real, q: real)
    requires n >= 1 && 2 * h >= n && v >= 0.0
    requires (h as real + 1.0) * (n as real * v) >= h as real * q
    ensures q <= (n as real + 2.0) * v
  {
    var n', h' := n as real, h as real;
    assert h' * ((n' + 2.0) * v) == (h' + 1.0) * (n' * v) + (2.0 * h' - n') * v;
    assert (2.0 * h' - n') * v >= 0.0;
    NonNegativeFactor(h', (n' + 2.0) * v - q);
  }

  lemma NonNegativeFactor(h: real, z: real)
    requires h > 0.0 && h * z >= 0.0
    ensures z >= 0.0
  {
  }

  // ----- when the five-sigma rule fires -----

  /** With fewer than 24 surviving samples the fallback cannot fire, whatever was measured. */
  lemma NeverFiresBelow24(xs: seq<real>, best: real)
    requires |xs| < 24
    requires best in xs
    ensures !IsOutlier(xs, best)
  {
    hide Variance, Median;
    MedianInequality(xs, best);
    VarianceFacts(xs);
    assert Square(OUTLIER_STDDEV_THRESHOLD) == 25.0;
    assert (|xs| as real + 2.0) * Variance(xs) <= 25.0 * Variance(xs);
  }

  lemma {:induction false} StraysAreFew(xs: seq<real>, a: real)
    ensures multiset(xs)[a] <= |xs|
    ensures forall p, q :: 0 <= p < q < |xs| && xs[p] != a && xs[q] != a ==> multiset(xs)[a] <= |xs| - 2
    ensures (forall k :: 0 <= k < |xs| ==> xs[k] == a) ==> multiset(xs)[a] == |xs|
  {
    if xs != [] {
      StraysAreFew(xs[1..], a);
      assert xs == [xs[0]] + xs[1..];
      forall p, q | 0 <= p < q < |xs| && xs[p] != a && xs[q] != a ensures multiset(xs)[a] <= |xs| - 2 {
        if p == 0 {
          OneStray(xs[1..], q - 1, a);
        } else {
          assert xs[1..][p - 1] != a && xs[1..][q - 1] != a;
        }
      }
    }
  }

  lemma {:induction false} OneStray(xs: seq<real>, i: nat, a: real)
    requires i < |xs| && xs[i] != a
    ensures multiset(xs)[a] <= |xs| - 1
    ensures (forall k :: 0 <= k < |xs| && k != i ==> xs[k] == a) ==> multiset(xs)[a] == |xs| - 1
  {
    assert xs == [xs[0]] + xs[1..];
    if i == 0 {
      AtMostAll(xs[1..], a);
    } else {
      OneStray(xs[1..], i - 1, a);
    }
  }

  lemma {:induction false} AtMostAll(xs: seq<real>, a: real)
    ensures multiset(xs)[a] <= |xs|
    ensures (forall k :: 0 <= k < |xs| ==> xs[k] == a) ==> multiset(xs)[a] == |xs|
  {
    if xs != [] {
      assert xs == [xs[0]] + xs[1..];
      AtMostAll(xs[1..], a);
    }
  }

  /** A cohort whose values are all `a` except one has median `a`. */
  lemma MedianWithOneStray(xs: seq<real>, i: nat, a: real)
    requires |xs| >= 4 && i < |xs| && xs[i] != a
    requires forall k :: 0 <= k < |xs| && k != i ==> xs[k] == a
    ensures Median(xs) == a
  {
    var v := StableSort(Identity, xs);
    StableSortSpec(Identity, xs);
    var n := |v|;
    OneStray(xs, i, a);
    StraysAreFew(v, a);
    MiddleOfSorted(v, Median(xs));
    var mid := n / 2;
    assert Identity(v[0]) <= Identity(v[mid - 1]) <= Identity(v[mid]) <= Identity(v[n - 1]);
    assert v[0] == a || v[n - 1] == a;
  }

  lemma {:induction false} SpreadOfConstant(x: real, ys: seq<real>, a: real)
    requires forall k :: 0 <= k < |ys| ==> ys[k] == a
    ensures SpreadFrom(x, ys) == |ys| as real * Square(x - a)
  {
    hide Square;
    if ys != [] {
      SpreadOfConstant(x, ys[1..], a);
      OneMoreTerm(|ys| - 1, Square(x - a));
    }
  }

  lemma {:induction false} SpreadOfOneStray(ys: seq<real>, i: nat, a: real)
    requires i < |ys| && forall k :: 0 <= k < |ys| && k != i ==> ys[k] == a
    ensures SpreadFrom(a, ys) == Square(ys[i] - a)
  {
    ZeroSquare();
    assert Square(a - ys[i]) == Square(ys[i] - a);
    hide Square;
    if i == 0 {
      SpreadOfConstant(a, ys[1..], a);
      assert a - a == 0.0;
    } else {
      SpreadOfOneStray(ys[1..], i - 1, a);
      assert a - ys[0] == 0.0;
    }
  }

  lemma {:induction false} PairSpreadOfConstant(xs: seq<real>, a: real)
    requires forall k :: 0 <= k < |xs| ==> xs[k] == a
    ensures PairSpread(xs) == 0.0
  {
    hide SpreadFrom;
    if xs != [] {
      PairSpreadOfConstant(xs[1..], a);
      SpreadOfConstant(a, xs[1..], a);
    }
  }

  /** One stray among `n` equal values differs in `n - 1` pairs. */
  lemma {:induction false} PairSpreadOfOneStray(xs: seq<real>, i: nat, a: real)
    requires i < |xs| && forall k :: 0 <= k < |xs| && k != i ==> xs[k] == a
    ensures PairSpread(xs) == (|xs| - 1) as real * Square(xs[i] - a)
  {
    hide SpreadFrom, Square;
    if i == 0 {
      PairSpreadOfConstant(xs[1..], a);
      SpreadOfConstant(xs[0], xs[1..], a);
    } else {
      PairSpreadOfOneStray(xs[1..], i - 1, a);
      SpreadOfOneStray(xs[1..], i - 1, a);
      OneMoreTerm(|xs| - 2, Square(xs[i] - a));
    }
  }

  /** Conversely from 24 samples on, `n - 1` equal offsets and one different one do fire. */
  lemma FiresFrom24(xs: seq<real>, i: nat, a: real)
    requires |xs| >= 24 && i < |xs| && xs[i] != a
    requires forall k :: 0 <= k < |xs| && k != i ==> xs[k] == a
    ensures IsOutlier(xs, xs[i])
  {
    hide IsOutlier, PairSpread, Median;
    MedianWithOneStray(xs, i, a);
    PairSpreadOfOneStray(xs, i, a);
    OutlierExactlyWhen(xs, xs[i]);
    StrayIsFarEnough(|xs|, xs[i] - a);
  }

  lemma StrayIsFarEnough(n: nat, d: real)
    requires n >= 24 && d != 0.0
    ensures (n - 1) as real * Square(d) > 0.0
    ensures n as real * n as real * Square(d) > 25.0 * ((n - 1) as real * Square(d))
  {
    SquareIsPositive(d);
    hide Square;
    assert n == 24 || n as real >= 25.0;
    assert (n - 1) as real == n as real - 1.0;
    FarEnough(n as real, Square(d));
  }

  lemma SquareIsPositive(d: real)
    requires d != 0.0
    ensures Square(d) > 0.0
  {
    SquareIsNonNegative(d);
    SquareIsNotZero(d);
  }

  lemma SquareIsNotZero(d: real)
    requires d != 0.0
    ensures Square(d) != 0.0
  {
    assert d * d * (1.0 / d) == d;
  }

  lemma PositiveProduct(a: real, b: real)
    requires a > 0.0 && b > 0.0
    ensures a * b > 0.0
  {
  }

  lemma FarEnough(k: real, q: real)
    requires q > 0.0 && (k == 24.0 || k >= 25.0)
    ensures (k - 1.0) * q > 0.0 && k * k * q > 25.0 * ((k - 1.0) * q)
  {
    var room := k * k - 25.0 * (k - 1.0);
    assert room > 0.0 by {
      if k >= 25.0 { assert k * k >= 25.0 * k; }
    }
    PositiveProduct(k - 1.0, q);
    PositiveProduct(room, q);
    assert k * k * q - 25.0 * ((k - 1.0) * q) == room * q;
  }
}
