/** The exact two-sided McNemar test over rationals. */
module McNemar {
  import opened Common
  import opened Reals

  // ---- binomial coefficients ---------------------------------------------

  function Comb(n: nat, k: nat): (c: nat)
    ensures k <= n ==> c > 0
    ensures k > n ==> c == 0
  {
    if k == 0 then 1 else if n == 0 then 0 else Comb(n - 1, k - 1) + Comb(n - 1, k)
  }

  function Factorial(n: nat): (f: nat)
    ensures f > 0
  {
    if n == 0 then 1 else n * Factorial(n - 1)
  }

  /** The coefficients are the ones `math.comb` computes: n! / (k! (n - k)!). */
  lemma {:induction false} CombIsFactorialQuotient(n: nat, k: nat)
    requires k <= n
    ensures Comb(n, k) * Factorial(k) * Factorial(n - k) == Factorial(n)
  {
    if 0 < k < n {
      CombIsFactorialQuotient(n - 1, k - 1);
      CombIsFactorialQuotient(n - 1, k);
      PascalStep(n, k, Comb(n - 1, k - 1), Comb(n - 1, k), Factorial(k - 1), Factorial(n - k - 1), Factorial(n - 1));
      assert Factorial(k) == k * Factorial(k - 1);
      assert Factorial(n - k) == (n - k) * Factorial(n - k - 1);
    } else if k == n && k > 0 {
      CombIsFactorialQuotient(n - 1, k - 1);
      assert Comb(n - 1, k) == 0;
      assert Factorial(n - k) == 1;
    }
  }

  lemma PascalStep(n: nat, k: nat, left: nat, right: nat, fk: nat, fm: nat, f: nat)
    requires 0 < k < n && left * fk * ((n - k) * fm) == f && right * (k * fk) * fm == f
    ensures (left + right) * (k * fk) * ((n - k) * fm) == n * f
  {
    var m := n - k;
    assert left * (k * fk) * (m * fm) == k * (left * fk * (m * fm));
    assert right * (k * fk) * (m * fm) == m * (right * (k * fk) * fm);
  }

  lemma {:induction false} Symmetry(n: nat, k: nat)
    requires k <= n
    ensures Comb(n, k) == Comb(n, n - k)
  {
    if 0 < k < n {
      Symmetry(n - 1, k - 1);
      Symmetry(n - 1, k);
    } else if n > 0 {
      Edge(n);
    }
  }

  lemma {:induction false} Edge(n: nat)
    ensures Comb(n, n) == 1
  {
    if n > 0 {
      Edge(n - 1);
    }
  }

  function Pow2(n: nat): (p: nat)
    ensures p > 0
  {
    if n == 0 then 1 else 2 * Pow2(n - 1)
  }

  /** The sum of the first m coefficients of row n. */
  function RowSum(n: nat, m: nat): (s: nat) {
    if m == 0 then 0 else RowSum(n, m - 1) + Comb(n, m - 1)
  }

  lemma {:induction false} PascalRow(n: nat, m: nat)
    requires n > 0 && m > 0
    ensures RowSum(n, m) == RowSum(n - 1, m - 1) + RowSum(n - 1, m)
  {
    if m > 1 {
      PascalRow(n, m - 1);
    }
  }

  lemma {:induction false} WholeRow(n: nat)
    ensures RowSum(n, n + 1) == Pow2(n)
  {
    if n > 0 {
      PascalRow(n, n + 1);
      WholeRow(n - 1);
      assert RowSum(n - 1, n + 1) == RowSum(n - 1, n) + Comb(n - 1, n);
    }
  }

  /** The lower tail and the matching upper tail make up the whole row. */
  lemma {:induction false} TailsFillRow(n: nat, j: nat)
    requires j <= n + 1
    ensures RowSum(n, j) + RowSum(n, n + 1 - j) == Pow2(n)
  {
    if j == 0 {
      WholeRow(n);
    } else {
      TailsFillRow(n, j - 1);
      Symmetry(n, j - 1);
      assert RowSum(n, n + 2 - j) == RowSum(n, n + 1 - j) + Comb(n, n + 1 - j);
    }
  }

  lemma {:induction false} RowSumGrows(n: nat, i: nat, j: nat)
    requires i <= j <= n + 1
    ensures RowSum(n, i) <= RowSum(n, j) && (i < j ==> RowSum(n, i) < RowSum(n, j))
  {
    if i < j {
      RowSumGrows(n, i, j - 1);
    }
  }

  // ---- the test ----------------------------------------------------------

  datatype Report = Report(b01: nat, b10: nat, pValue: real, accuracyDelta: Option<real>)

  /** Paired items where the first system answered `x` and the second `y`. */
  function Paired(a: seq<bool>, b: seq<bool>, x: bool, y: bool): (n: nat)
    requires |a| == |b|
  {
    if a == [] then 0
    else (if a[0] == x && b[0] == y then 1 else 0) + Paired(a[1..], b[1..], x, y)
  }

  function Correct(a: seq<bool>): (n: nat) {
    Count(x => x, a)
  }

  function MinNat(a: nat, b: nat): (m: nat) { if a <= b then a else b }

  function Tail(b01: nat, b10: nat): (t: real) {
    if b01 + b10 == 0 then 1.0
    else RowSum(b01 + b10, MinNat(b01, b10) + 1) as real / Pow2(b01 + b10) as real
  }

  function PValue(b01: nat, b10: nat): (p: real) {
    if 2.0 * Tail(b01, b10) <= 1.0 then 2.0 * Tail(b01, b10) else 1.0
  }

  function Test(a: seq<bool>, b: seq<bool>): (r: Result<Report, string>) {
    if |a| != |b| then Failure("paired outcomes required")
    else
      var b01, b10 := Paired(a, b, false, true), Paired(a, b, true, false);
      var delta := if a == [] then None else Some(Correct(b) as real / |b| as real - Correct(a) as real / |a| as real);
      Success(Report(b01, b10, PValue(b01, b10), delta))
  }

  // ---- the tail ----------------------------------------------------------

  lemma Ratio(x: nat, y: nat)
    requires y > 0
    ensures 2.0 * (x as real / y as real) <= 1.0 <==> 2 * x <= y
    ensures 2.0 * (x as real / y as real) == 1.0 <==> 2 * x == y
    ensures x > 0 ==> x as real / y as real > 0.0
  {
    var q, d := x as real / y as real, y as real;
    assert q * d == x as real;
    TimesPositive(q, 0.5, d);
    TimesPositive(0.5, q, d);
    TimesPositive(q, 0.0, d);
  }

  /** Twice the tail exceeds one exactly when the discordant counts are equal, and is one exactly when they
      differ by one: so the clamp is active for equal counts only. */
  lemma {:induction false} ClampActiveExactly(b01: nat, b10: nat)
    ensures 2.0 * Tail(b01, b10) > 1.0 <==> b01 == b10
    ensures 2.0 * Tail(b01, b10) == 1.0 <==> b01 == b10 + 1 || b10 == b01 + 1
  {
    var n, m := b01 + b10, MinNat(b01, b10);
    if n > 0 {
      TailsFillRow(n, m + 1);
      Ratio(RowSum(n, m + 1), Pow2(n));
      if n - m == m {
        assert RowSum(n, m + 1) == RowSum(n, m) + Comb(n, m);
      } else {
        RowSumGrows(n, m + 1, n - m);
      }
    }
  }

  lemma TailPositive(b01: nat, b10: nat)
    ensures Tail(b01, b10) > 0.0
  {
    var n, m := b01 + b10, MinNat(b01, b10);
    if n > 0 {
      RowSumGrows(n, 0, m + 1);
      Ratio(RowSum(n, m + 1), Pow2(n));
    }
  }

  /** The p-value is a probability, and is 1 exactly when the discordant counts are as balanced as they can be. */
  lemma PValueRange(b01: nat, b10: nat)
    ensures 0.0 < PValue(b01, b10) <= 1.0
    ensures PValue(b01, b10) == 1.0 <==> b01 <= b10 + 1 && b10 <= b01 + 1
  {
    TailPositive(b01, b10);
    ClampActiveExactly(b01, b10);
  }

  lemma Quotient(x: nat, y: nat, d: nat)
    requires x < y && d > 0
    ensures x as real / d as real < y as real / d as real
  {
    var u, v, r := x as real / d as real, y as real / d as real, d as real;
    assert u * r == x as real && v * r == y as real;
    TimesPositive(v, u, r);
  }

  /** Of a fixed number n of discordant pairs, the more balanced split has the larger p-value; strictly,
      until it reaches 1. */
  lemma BalanceRaisesPValue(n: nat, less: nat, more: nat)
    requires less < more && 2 * more <= n
    ensures PValue(less, n - less) <= PValue(more, n - more)
    ensures PValue(less, n - less) < 1.0 ==> PValue(less, n - less) < PValue(more, n - more)
  {
    RowSumGrows(n, less + 1, more + 1);
    Quotient(RowSum(n, less + 1), RowSum(n, more + 1), Pow2(n));
  }

  // ---- the report --------------------------------------------------------

  lemma {:induction false} PairedSwaps(a: seq<bool>, b: seq<bool>, x: bool, y: bool)
    requires |a| == |b|
    ensures Paired(a, b, x, y) == Paired(b, a, y, x)
  {
    if a != [] {
      PairedSwaps(a[1..], b[1..], x, y);
    }
  }

  lemma {:induction false} DiscordantsAreTheDifference(a: seq<bool>, b: seq<bool>)
    requires |a| == |b|
    ensures Correct(b) - Correct(a) == Paired(a, b, false, true) - Paired(a, b, true, false)
  {
    if a != [] {
      DiscordantsAreTheDifference(a[1..], b[1..]);
    }
  }

  lemma Share(x: int, y: int, n: int)
    requires n > 0
    ensures x as real / n as real - y as real / n as real == (x - y) as real / n as real
  {
  }

  /** The difference of the two accuracies is carried by the discordant pairs alone. */
  lemma AccuracyDelta(a: seq<bool>, b: seq<bool>)
    requires |a| == |b|
    ensures var r := Test(a, b).value;
            r.accuracyDelta == if a == [] then None else Some((r.b01 - r.b10) as real / |a| as real)
  {
    DiscordantsAreTheDifference(a, b);
    if a != [] {
      Share(Correct(b), Correct(a), |a|);
    }
  }

  /** How many items each system got right, and how many only one of them, as numbers of positions: the delta
      is the second system's accuracy minus the first's. */
  lemma CountsExactly(a: seq<bool>, b: seq<bool>)
    requires |a| == |b|
    ensures var r := Test(a, b).value;
            && r.b01 == |Where(a, b, false, true)| && r.b10 == |Where(a, b, true, false)|
            && r.accuracyDelta == if |a| == 0 then None
                                  else Some(|Where(b, b, true, true)| as real / |a| as real - |Where(a, a, true, true)| as real / |a| as real)
  {
    PairedFrom(a, b, false, true, 0);
    PairedFrom(a, b, true, false, 0);
    CorrectFrom(a, 0);
    CorrectFrom(b, 0);
    assert a[0..] == a && b[0..] == b;
    assert WhereFrom(a, b, false, true, 0) == Where(a, b, false, true) && WhereFrom(a, b, true, false, 0) == Where(a, b, true, false);
    assert WhereFrom(a, a, true, true, 0) == Where(a, a, true, true) && WhereFrom(b, b, true, true, 0) == Where(b, b, true, true);
    hide Where, WhereFrom, Paired, PValue;
  }

  /** The positions where the first list holds x and the second y. */
  function Where(a: seq<bool>, b: seq<bool>, x: bool, y: bool): (s: set<nat>)
    requires |a| == |b|
  {
    set i | 0 <= i < |a| && a[i] == x && b[i] == y
  }

  function WhereFrom(a: seq<bool>, b: seq<bool>, x: bool, y: bool, k: nat): (s: set<nat>)
    requires |a| == |b|
  {
    set i | k <= i < |a| && a[i] == x && b[i] == y
  }

  lemma WhereStep(a: seq<bool>, b: seq<bool>, x: bool, y: bool, k: nat)
    requires k < |a| == |b|
    ensures |WhereFrom(a, b, x, y, k)| == (if a[k] == x && b[k] == y then 1 else 0) + |WhereFrom(a, b, x, y, k + 1)|
  {
    var more := WhereFrom(a, b, x, y, k + 1);
    assert k !in more;
    assert WhereFrom(a, b, x, y, k) == if a[k] == x && b[k] == y then {k} + more else more;
    hide WhereFrom;
  }

  lemma {:induction false} PairedFrom(a: seq<bool>, b: seq<bool>, x: bool, y: bool, k: nat)
    requires k <= |a| == |b|
    ensures Paired(a[k..], b[k..], x, y) == |WhereFrom(a, b, x, y, k)|
    decreases |a| - k
  {
    if k < |a| {
      PairedFrom(a, b, x, y, k + 1);
      WhereStep(a, b, x, y, k);
      assert a[k..][1..] == a[k + 1..] && b[k..][1..] == b[k + 1..];
    } else {
      assert WhereFrom(a, b, x, y, k) == {};
    }
  }

  lemma {:induction false} CorrectFrom(a: seq<bool>, k: nat)
    requires k <= |a|
    ensures Correct(a[k..]) == |WhereFrom(a, a, true, true, k)|
    decreases |a| - k
  {
    if k < |a| {
      CorrectFrom(a, k + 1);
      WhereStep(a, a, true, true, k);
      assert a[k..][1..] == a[k + 1..];
      CorrectCons(a[k], a[k + 1..]);
      assert a[k..] == [a[k]] + a[k + 1..];
    } else {
      assert WhereFrom(a, a, true, true, k) == {};
    }
  }

  lemma CorrectCons(x: bool, rest: seq<bool>)
    ensures Correct([x] + rest) == (if x then 1 else 0) + Correct(rest)
  {
    assert ([x] + rest)[1..] == rest;
  }

  // ---- what the p-value is -----------------------------------------------

  function Distance(n: nat, k: nat): (d: nat) {
    if 2 * k >= n then 2 * k - n else n - 2 * k
  }

  /** The sum of the coefficients k < m of row n whose split (k, n - k) is at least d apart. */
  function FarSum(n: nat, d: nat, m: nat): (s: nat) {
    if m == 0 then 0 else FarSum(n, d, m - 1) + (if Distance(n, m - 1) >= d then Comb(n, m - 1) else 0)
  }

  lemma {:induction false} FarAll(n: nat, d: nat, m: nat)
    requires forall k | 0 <= k < m :: Distance(n, k) >= d
    ensures FarSum(n, d, m) == RowSum(n, m)
  {
    if m > 0 {
      FarAll(n, d, m - 1);
    }
  }

  lemma {:induction false} FarBetween(n: nat, d: nat, low: nat, m: nat)
    requires low <= m && forall k | low <= k < m :: Distance(n, k) < d
    ensures FarSum(n, d, m) == FarSum(n, d, low)
    decreases m
  {
    if low < m {
      FarBetween(n, d, low, m - 1);
    }
  }

  lemma {:induction false} FarAbove(n: nat, d: nat, low: nat, m: nat)
    requires low <= m && forall k | low <= k < m :: Distance(n, k) >= d
    ensures FarSum(n, d, m) == FarSum(n, d, low) + RowSum(n, m) - RowSum(n, low)
    decreases m
  {
    if low < m {
      FarAbove(n, d, low, m - 1);
    }
  }

  /** The p-value is the probability, when each of the n discordant pairs falls to either system with equal
      chance, of a split at least as unequal as the one seen. */
  lemma PValueMeaning(b01: nat, b10: nat)
    ensures var n, d := b01 + b10, Distance(b01 + b10, b01);
            PValue(b01, b10) == FarSum(n, d, n + 1) as real / Pow2(n) as real
  {
    var n, m := b01 + b10, MinNat(b01, b10);
    ClampActiveExactly(b01, b10);
    if b01 == b10 {
      FarBalanced(b01);
      One(Pow2(n));
    } else {
      FarTails(n, Distance(n, b01), m);
      hide FarSum, RowSum, Distance;
      DoubleQuotient(RowSum(n, m + 1), Pow2(n));
    }
    hide FarSum, RowSum, Distance, Pow2;
  }

  lemma One(y: nat)
    requires y > 0
    ensures y as real / y as real == 1.0
  {
  }

  lemma FarBalanced(b: nat)
    ensures FarSum(b + b, Distance(b + b, b), b + b + 1) == Pow2(b + b)
  {
    FarAll(b + b, 0, b + b + 1);
    WholeRow(b + b);
  }

  lemma FarTails(n: nat, d: nat, m: nat)
    requires 2 * m < n && d == n - 2 * m
    ensures FarSum(n, d, n + 1) == 2 * RowSum(n, m + 1)
  {
    FarAll(n, d, m + 1);
    FarBetween(n, d, m + 1, n - m);
    FarAbove(n, d, n - m, n + 1);
    TailsFillRow(n, m + 1);
    WholeRow(n);
  }

  lemma DoubleQuotient(x: nat, y: nat)
    requires y > 0
    ensures 2.0 * (x as real / y as real) == (2 * x) as real / y as real
  {
    var q, d := x as real / y as real, y as real;
    assert q * d == x as real;
    assert (2.0 * q) * d == (2 * x) as real;
  }

  /** Swapping the systems swaps the discordant counts and keeps the p-value. */
  lemma SwapKeepsPValue(a: seq<bool>, b: seq<bool>)
    ensures Test(a, b).Failure? <==> |a| != |b|
    ensures Test(b, a).Failure? <==> |a| != |b|
    ensures |a| == |b| ==>
              var r, s := Test(a, b).value, Test(b, a).value;
              s.b01 == r.b10 && s.b10 == r.b01 && s.pValue == r.pValue
  {
    if |a| == |b| {
      PairedSwaps(a, b, false, true);
      PairedSwaps(a, b, true, false);
    }
  }
}
