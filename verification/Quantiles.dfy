/** Two quantile definitions over exact reals: nearest rank, and linear interpolation. */
module Quantiles {
  import opened Common
  import opened Reals

  // ---- sorting -----------------------------------------------------------

  predicate Sorted(xs: seq<real>) {
    forall i, j | 0 <= i <= j < |xs| :: xs[i] <= xs[j]
  }

  function Insert(x: real, xs: seq<real>): (r: seq<real>)
    ensures |r| == |xs| + 1
  {
    if xs == [] || x <= xs[0] then [x] + xs else [xs[0]] + Insert(x, xs[1..])
  }

  function Sort(xs: seq<real>): (r: seq<real>)
    ensures |r| == |xs|
  {
    if xs == [] then [] else Insert(xs[0], Sort(xs[1..]))
  }

  lemma {:induction false} InsertMembers(x: real, xs: seq<real>)
    ensures multiset(Insert(x, xs)) == multiset(xs) + multiset{x}
  {
    if xs == [] || x <= xs[0] {
    } else {
      InsertMembers(x, xs[1..]);
      assert xs == [xs[0]] + xs[1..];
    }
  }

  lemma {:induction false} InsertSorted(x: real, xs: seq<real>)
    requires Sorted(xs)
    ensures Sorted(Insert(x, xs))
  {
    if xs == [] || x <= xs[0] {
    } else {
      InsertSorted(x, xs[1..]);
      InsertMembers(x, xs[1..]);
      var r := Insert(x, xs[1..]);
      forall j | 0 <= j < |r| ensures xs[0] <= r[j] {
        assert r[j] in multiset(r);
        if r[j] != x {
          assert r[j] in multiset(xs[1..]);
        }
      }
    }
  }

  /** Sorting gives a sorted rearrangement. */
  lemma {:induction false} SortSorts(xs: seq<real>)
    ensures Sorted(Sort(xs)) && multiset(Sort(xs)) == multiset(xs)
  {
    if xs != [] {
      SortSorts(xs[1..]);
      InsertSorted(xs[0], Sort(xs[1..]));
      InsertMembers(xs[0], Sort(xs[1..]));
      assert xs == [xs[0]] + xs[1..];
    }
  }

  /** There is only one sorted rearrangement. */
  lemma {:induction false} SortedUnique(a: seq<real>, b: seq<real>)
    requires Sorted(a) && Sorted(b) && multiset(a) == multiset(b)
    ensures a == b
    decreases |a|
  {
    assert |multiset(a)| == |a| && |multiset(b)| == |b|;
    if a != [] {
      HeadIsLeast(a, b);
      HeadIsLeast(b, a);
      TailMembers(a);
      TailMembers(b);
      assert Sorted(a[1..]) && Sorted(b[1..]);
      hide Sorted;
      SortedUnique(a[1..], b[1..]);
      assert a == [a[0]] + a[1..] && b == [b[0]] + b[1..];
    }
  }

  lemma HeadIsLeast(a: seq<real>, b: seq<real>)
    requires a != [] && b != [] && Sorted(a) && multiset(a) == multiset(b)
    ensures a[0] <= b[0]
  {
    assert b[0] in multiset(a);
    var i :| 0 <= i < |a| && a[i] == b[0];
  }

  lemma TailMembers(a: seq<real>)
    requires a != []
    ensures multiset(a[1..]) == multiset(a) - multiset{a[0]}
  {
    assert a == [a[0]] + a[1..];
  }

  // ---- the two definitions -----------------------------------------------

  function Present(values: seq<Option<real>>): (xs: seq<real>) {
    if values == [] then []
    else (if values[0].Some? then [values[0].value] else []) + Present(values[1..])
  }

  function MaxInt(a: int, b: int): (m: int) { if a >= b then a else b }

  function MinInt(a: int, b: int): (m: int) { if a <= b then a else b }

  /** The product, named so that what is known of it is kept apart from the multiplication. */
  function Part(c: real, t: real): (p: real) {
    c * t
  }

  lemma PartGrows(c: real, s: real, t: real)
    requires c >= 0.0 && s <= t
    ensures Part(c, s) <= Part(c, t)
  {
    assert c * (t - s) >= 0.0;
  }

  lemma PartOf(c: real, t: real)
    requires c >= 0.0 && 0.0 <= t <= 1.0
    ensures 0.0 <= Part(c, t) <= c
  {
    PartGrows(c, 0.0, t);
    PartGrows(c, t, 1.0);
  }

  /** q percent of n samples. */
  function Target(q: real, n: nat): (t: real) {
    Part(n as real, q / 100.0)
  }

  /** The index the nearest-rank definition takes, for n samples. */
  function RankIndex(q: real, n: nat): (k: nat)
    requires n > 0
    ensures k < n
  {
    MaxInt(0, MinInt(n - 1, Ceil(Target(q, n)) - 1))
  }

  function Percentile(values: seq<Option<real>>, q: real): (r: Option<real>) {
    var xs := Sort(Present(values));
    if xs == [] then None else Some(xs[RankIndex(q, |xs|)])
  }

  function Blend(a: real, b: real, t: real): (v: real)
    requires 0.0 <= t <= 1.0
    ensures a <= b ==> a <= v <= b
  {
    if a <= b then
      PartOf(b - a, t);
      a + Part(b - a, t)
    else a + Part(b - a, t)
  }

  /** The value at a possibly fractional position of the sorted samples. */
  function At(xs: seq<real>, pos: real): (v: real)
    requires xs != [] && 0.0 <= pos <= (|xs| - 1) as real
  {
    var lo, hi := pos.Floor, Ceil(pos);
    if lo == hi then xs[lo] else Blend(xs[lo], xs[hi], pos - lo as real)
  }

  /** The position of level q among n sorted samples. */
  function Position(n: nat, q: real): (pos: real)
    requires n > 0 && 0.0 <= q <= 1.0
    ensures 0.0 <= pos <= (n - 1) as real
  {
    PartOf((n - 1) as real, q);
    Part((n - 1) as real, q)
  }

  function Quantile(values: seq<real>, q: real): (r: Option<real>)
    requires 0.0 <= q <= 1.0
  {
    var xs := Sort(values);
    if xs == [] then None else Some(At(xs, Position(|xs|, q)))
  }

  // ---- nearest rank ------------------------------------------------------

  function AtMost(xs: seq<real>, x: real): (n: nat) {
    Count(v => v <= x, xs)
  }

  lemma {:induction false} InsertCounts(v: real, xs: seq<real>, x: real)
    ensures AtMost(Insert(v, xs), x) == (if v <= x then 1 else 0) + AtMost(xs, x)
  {
    if xs == [] || v <= xs[0] {
    } else {
      InsertCounts(v, xs[1..], x);
      assert Insert(v, xs)[1..] == Insert(v, xs[1..]);
    }
  }

  lemma {:induction false} SortCounts(xs: seq<real>, x: real)
    ensures AtMost(Sort(xs), x) == AtMost(xs, x)
  {
    if xs != [] {
      SortCounts(xs[1..], x);
      InsertCounts(xs[0], Sort(xs[1..]), x);
    }
  }

  /** In a sorted list at least k + 1 samples are at or below the one at index k, and at most k are below it. */
  lemma {:induction false} SortedCounts(xs: seq<real>, k: nat, x: real)
    requires Sorted(xs) && k < |xs|
    ensures xs[k] <= x ==> AtMost(xs, x) >= k + 1
    ensures x < xs[k] ==> AtMost(xs, x) <= k
  {
    if k > 0 {
      SortedCounts(xs[1..], k - 1, x);
    } else if x < xs[0] {
      NoneAtMost(xs, x);
    }
  }

  lemma {:induction false} NoneAtMost(xs: seq<real>, x: real)
    requires forall i | 0 <= i < |xs| :: x < xs[i]
    ensures AtMost(xs, x) == 0
  {
    if xs != [] {
      NoneAtMost(xs[1..], x);
    }
  }

  lemma RankBounds(q: real, n: nat)
    requires n > 0 && 0.0 < q <= 100.0
    ensures RankIndex(q, n) as real < Target(q, n) <= (RankIndex(q, n) + 1) as real
  {
    PartOf(n as real, q / 100.0);
    PartPositive(n as real, q / 100.0);
    hide Part;
  }

  lemma PartPositive(c: real, t: real)
    requires c > 0.0 && t > 0.0
    ensures Part(c, t) > 0.0
  {
  }

  lemma LeastAtRank(xs: seq<real>, k: nat, target: real)
    requires k < |xs| && k as real < target <= (k + 1) as real
    ensures var r := Sort(xs)[k];
            && r in xs && AtMost(xs, r) as real >= target
            && forall x | x < r :: (AtMost(xs, x) as real) < target
  {
    var s := Sort(xs);
    SortSorts(xs);
    hide Sort, AtMost, Sorted;
    assert s[k] in multiset(xs);
    SortedCounts(s, k, s[k]);
    SortCounts(xs, s[k]);
    forall x | x < s[k] ensures AtMost(xs, x) <= k {
      SortedCounts(s, k, x);
      SortCounts(xs, x);
    }
  }

  /** The nearest-rank percentile is the least sample that has at least q percent of the samples at or below it. */
  lemma PercentileIsLeast(values: seq<Option<real>>, q: real)
    requires 0.0 < q <= 100.0 && Present(values) != []
    ensures Percentile(values, q).Some?
    ensures var xs, r := Present(values), Percentile(values, q).value;
            && r in xs && AtMost(xs, r) as real >= Target(q, |xs|)
            && forall x | x < r :: (AtMost(xs, x) as real) < Target(q, |xs|)
  {
    var xs := Present(values);
    hide RankIndex, Target, AtMost, Sort, Present;
    RankBounds(q, |xs|);
    LeastAtRank(xs, RankIndex(q, |xs|), Target(q, |xs|));
  }

  /** Missing values do not count, every other value does as often as it occurs. */
  lemma {:induction false} PresentExactly(values: seq<Option<real>>, x: real)
    ensures multiset(Present(values))[x] == multiset(values)[Some(x)]
  {
    if values != [] {
      var v, rest := values[0], values[1..];
      PresentExactly(rest, x);
      assert values == [v] + rest;
      var front: seq<real> := if v.Some? then [v.value] else [];
      assert Present(values) == front + Present(rest);
      assert multiset(front)[x] == multiset([v])[Some(x)];
      hide Present;
    }
  }

  /** Outside the usual levels: nothing to rank gives no percentile, levels up to 0 give the least value and
      levels from 100 the greatest. */
  lemma PercentileEnds(values: seq<Option<real>>, q: real, x: real)
    ensures Percentile(values, q).None? <==> Present(values) == []
    ensures x in Present(values) && q <= 0.0 ==> Percentile(values, q).value <= x
    ensures x in Present(values) && q >= 100.0 ==> Percentile(values, q).value >= x
  {
    var xs := Present(values);
    hide Present;
    SortSorts(xs);
    if x in xs {
      assert x in multiset(Sort(xs));
      var i :| 0 <= i < |Sort(xs)| && Sort(xs)[i] == x;
      RankEnds(q, |xs|);
      hide RankIndex, Sort;
    }
  }

  lemma RankEnds(q: real, n: nat)
    requires n > 0
    ensures q <= 0.0 ==> RankIndex(q, n) == 0
    ensures q >= 100.0 ==> RankIndex(q, n) == n - 1
  {
    if q <= 0.0 {
      PartGrows(n as real, q / 100.0, 0.0);
    }
    if q >= 100.0 {
      PartGrows(n as real, 1.0, q / 100.0);
    }
  }

  // ---- interpolation -----------------------------------------------------

  lemma FloorAndCeil(pos: real)
    ensures pos.Floor <= Ceil(pos) <= pos.Floor + 1
    ensures pos.Floor as real <= pos <= Ceil(pos) as real
    ensures pos.Floor == Ceil(pos) <==> pos == pos.Floor as real
  {
  }

  /** The interpolated value lies between the two samples around its position. */
  lemma AtBetween(xs: seq<real>, pos: real)
    requires xs != [] && Sorted(xs) && 0.0 <= pos <= (|xs| - 1) as real
    ensures 0 <= pos.Floor <= Ceil(pos) < |xs| && xs[pos.Floor] <= At(xs, pos) <= xs[Ceil(pos)]
  {
    FloorAndCeil(pos);
    hide Blend;
  }

  lemma AtMonotone(xs: seq<real>, p: real, q: real)
    requires xs != [] && Sorted(xs) && 0.0 <= p <= q <= (|xs| - 1) as real
    ensures At(xs, p) <= At(xs, q)
  {
    AtBetween(xs, p);
    AtBetween(xs, q);
    FloorAndCeil(p);
    FloorAndCeil(q);
    if p.Floor < q.Floor {
      assert xs[Ceil(p)] <= xs[q.Floor];
    } else {
      SameCell(xs, p, q);
    }
  }

  lemma BlendGrows(a: real, b: real, s: real, t: real)
    requires a <= b && 0.0 <= s <= t <= 1.0
    ensures Blend(a, b, s) <= Blend(a, b, t)
  {
    PartGrows(b - a, s, t);
    hide Part;
  }

  lemma SameCell(xs: seq<real>, p: real, q: real)
    requires xs != [] && Sorted(xs) && 0.0 <= p <= q <= (|xs| - 1) as real && p.Floor == q.Floor
    ensures At(xs, p) <= At(xs, q)
  {
    AtBetween(xs, q);
    FloorAndCeil(p);
    FloorAndCeil(q);
    var lo := p.Floor;
    if p != lo as real {
      BlendGrows(xs[lo], xs[Ceil(q)], p - lo as real, q - lo as real);
    }
  }

  lemma Extremes(n: nat)
    requires n > 0
    ensures Position(n, 0.0) == 0.0 && Position(n, 1.0) == (n - 1) as real
  {
  }

  /** Quantiles grow with the level and stay within the samples. */
  lemma QuantileMonotone(values: seq<real>, p: real, q: real)
    requires values != [] && 0.0 <= p <= q <= 1.0
    ensures Quantile(values, p).Some? && Quantile(values, q).Some?
    ensures Quantile(values, p).value <= Quantile(values, q).value
  {
    SortSorts(values);
    hide At, Sort, Sorted, Position;
    PositionGrows(|values|, p, q);
    AtMonotone(Sort(values), Position(|values|, p), Position(|values|, q));
  }

  lemma PositionGrows(n: nat, p: real, q: real)
    requires n > 0 && 0.0 <= p <= q <= 1.0
    ensures Position(n, p) <= Position(n, q)
  {
    PartGrows((n - 1) as real, p, q);
  }

  /** Level 0 is the least sample, level 1 the greatest, and every level lies between them. */
  lemma QuantileExtremes(values: seq<real>, q: real)
    requires values != [] && 0.0 <= q <= 1.0
    ensures Quantile(values, 0.0) == Some(Sort(values)[0])
    ensures Quantile(values, 1.0) == Some(Sort(values)[|values| - 1])
    ensures Quantile(values, q).Some? && Sort(values)[0] <= Quantile(values, q).value <= Sort(values)[|values| - 1]
  {
    Extremes(|values|);
    hide Position, Sort;
    QuantileMonotone(values, 0.0, q);
    QuantileMonotone(values, q, 1.0);
  }

  /** Only the multiset of samples matters. */
  lemma QuantileIgnoresOrder(xs: seq<real>, ys: seq<real>, q: real)
    requires multiset(xs) == multiset(ys) && 0.0 <= q <= 1.0
    ensures Quantile(xs, q) == Quantile(ys, q)
  {
    SortSorts(xs);
    SortSorts(ys);
    hide Sort, Sorted, At;
    SortedUnique(Sort(xs), Sort(ys));
  }

  /** Between neighbouring ranks the quantile is the weighted mean of the two samples. */
  lemma QuantileAffine(values: seq<real>, s: seq<real>, q: real, k: nat, t: real)
    requires Sorted(s) && multiset(s) == multiset(values) && k + 1 < |values|
    requires 0.0 <= q <= 1.0 && 0.0 <= t <= 1.0 && (|values| - 1) as real * q == k as real + t
    ensures |s| == |values| && Quantile(values, q) == Some((1.0 - t) * s[k] + t * s[k + 1])
  {
    SortSorts(values);
    SortedUnique(s, Sort(values));
    hide Sort, Sorted, Part;
    var pos := Position(|values|, q);
    assert pos == k as real + t by { PositionIs(|values|, q); }
    Weighted(s[k], s[k + 1], t);
    if t == 1.0 {
      assert pos.Floor == k + 1 == Ceil(pos);
    } else {
      assert pos.Floor == k;
      FloorAndCeil(pos);
    }
    hide Position, Ceil;
  }

  lemma PositionIs(n: nat, q: real)
    requires n > 0 && 0.0 <= q <= 1.0
    ensures Position(n, q) == (n - 1) as real * q
  {
  }

  lemma Weighted(a: real, b: real, t: real)
    requires 0.0 <= t <= 1.0
    ensures Blend(a, b, t) == (1.0 - t) * a + t * b
    ensures t == 0.0 ==> (1.0 - t) * a + t * b == a
    ensures t == 1.0 ==> (1.0 - t) * a + t * b == b
  {
    var product := (b - a) * t;
    assert product == b * t - a * t;
  }

  lemma {:induction false} AllPresent(xs: seq<real>)
    ensures Present(seq(|xs|, i requires 0 <= i < |xs| => Some(xs[i]))) == xs
  {
    if xs != [] {
      AllPresent(xs[1..]);
      var all := seq(|xs|, i requires 0 <= i < |xs| => Some(xs[i]));
      var rest := seq(|xs| - 1, i requires 0 <= i < |xs| - 1 => Some(xs[1..][i]));
      assert all[1..] == rest;
    }
  }

  /** Where the two definitions look, for the same level. */
  lemma Neighbours(n: nat, q: real)
    requires n > 0 && 0.0 <= q <= 1.0
    ensures var k, pos := RankIndex(100.0 * q, n), Position(n, q);
            MaxInt(0, k - 1) <= pos.Floor && Ceil(pos) <= MinInt(n - 1, k + 1)
  {
    var pos, t := Position(n, q), Target(100.0 * q, n);
    PositionAgainstTarget(n, q);
    hide Position, Target;
    FloorAndCeil(pos);
    FloorAndCeil(t);
  }

  lemma PositionAgainstTarget(n: nat, q: real)
    requires n > 0 && 0.0 <= q <= 1.0
    ensures Position(n, q) == Target(100.0 * q, n) - q && 0.0 <= Target(100.0 * q, n) <= n as real
  {
    assert 100.0 * q / 100.0 == q;
    PartOf(n as real, q);
    assert Part((n - 1) as real, q) == Part(n as real, q) - q;
  }

  /** For the same level the interpolated quantile lies between the sorted neighbours, one step to either
      side, of the nearest-rank percentile. */
  lemma WithinOneOrderStatistic(xs: seq<real>, q: real)
    requires xs != [] && 0.0 <= q <= 1.0
    ensures var s, k := Sort(xs), RankIndex(100.0 * q, |xs|);
            && Percentile(seq(|xs|, i requires 0 <= i < |xs| => Some(xs[i])), 100.0 * q) == Some(s[k])
            && s[MaxInt(0, k - 1)] <= Quantile(xs, q).value <= s[MinInt(|xs| - 1, k + 1)]
  {
    SortSorts(xs);
    AllPresent(xs);
    hide At, Sort, Present, RankIndex, Ceil, Position;
    Neighbours(|xs|, q);
    AtBetween(Sort(xs), Position(|xs|, q));
  }
}
