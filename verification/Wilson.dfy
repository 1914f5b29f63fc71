/** The Wilson score interval over exact reals, and the verdict rule built on it. */
module Wilson {
  import opened Common
  import opened Reals

  datatype Interval = Interval(point: real, low: real, high: real)

  /** `root` is the non-negative square root of `x`. */
  predicate IsRoot(root: real, x: real) {
    root >= 0.0 && root * root == x
  }

  function Share(s: int, n: int): (p: real)
    requires n > 0
  {
    s as real / n as real
  }

  function Radicand(p: real, n: int, z: real): (x: real)
    requires n > 0
  {
    p * (1.0 - p) / n as real + z * z / (4.0 * n as real * n as real)
  }

  /** The ends of the interval before they are clamped to [0, 1]. */
  function Ends(p: real, n: int, z: real, root: real): (r: (real, real))
    requires n > 0
  {
    AlphaPositive(n, z);
    var denom := 1.0 + z * z / n as real;
    var centre := (p + z * z / (2.0 * n as real)) / denom;
    var half := z * root / denom;
    (centre - half, centre + half)
  }

  /** `None` stands for the interval of no data, whose ends are not numbers. The square root is given:
      there is none when the radicand is negative. */
  function WilsonInterval(s: int, n: int, z: real, root: real): (r: Option<Interval>)
    requires n > 0 ==> IsRoot(root, Radicand(Share(s, n), n, z))
    ensures r.Some? <==> n > 0
  {
    if n <= 0 then None
    else
      var (low, high) := Ends(Share(s, n), n, z, root);
      Some(Interval(Share(s, n), Max(0.0, low), Min(1.0, high)))
  }

  // ---- algebra -----------------------------------------------------------

  /** Completing the square: with a = z^2 / n, the distance test at r is the score test scaled by 1 + a. */
  lemma SquareIdentity(p: real, r: real, a: real)
    ensures var x := (1.0 + a) * r - p - a / 2.0;
            x * x - (a * p * (1.0 - p) + a * a / 4.0) == (1.0 + a) * ((p - r) * (p - r) - a * r * (1.0 - r))
  {
    var d, b := 1.0 + a, p + a / 2.0;
    var dr := d * r;
    assert (dr - b) * (dr - b) == dr * dr - 2.0 * dr * b + b * b;
    assert b * b == p * p + p * a + a * a / 4.0;
    assert dr * dr == d * (r * (d * r));
    assert r * (d * r) == r * r + a * r * r;
    assert 2.0 * dr * b == d * (2.0 * r * p + a * r) by {
      assert r * b == r * p + r * a / 2.0;
      assert dr * b == d * (r * b);
    }
    assert a * p * (1.0 - p) == a * p - a * p * p;
    assert d * (p * p) == p * p + a * p * p;
    assert (p - r) * (p - r) == p * p - 2.0 * p * r + r * r;
    assert a * r * (1.0 - r) == a * r - a * r * r;
    Spread(d, r * r + a * r * r, 2.0 * r * p + a * r, p * p);
  }

  lemma Spread(d: real, u: real, v: real, w: real)
    ensures d * (u - v + w) == d * u - d * v + d * w
  {
  }

  lemma SquareMonotone(x: real, y: real)
    requires 0.0 <= x && 0.0 <= y
    ensures x <= y <==> x * x <= y * y
  {
    var difference, sum := x - y, x + y;
    assert difference * sum == x * x - y * y;
    if sum > 0.0 {
      TimesPositive(difference, 0.0, sum);
    }
  }

  lemma WithinSquares(x: real, bound: real)
    requires bound >= 0.0
    ensures -bound <= x <= bound <==> x * x <= bound * bound
  {
    if x >= 0.0 {
      SquareMonotone(x, bound);
    } else {
      SquareMonotone(-x, bound);
    }
  }

  lemma MulDiv(x: real, d: real)
    requires d != 0.0
    ensures x / d * d == x
  {
  }

  lemma SignOfProduct(d: real, x: real)
    requires d > 0.0
    ensures d * x <= 0.0 <==> x <= 0.0
    ensures d * x >= 0.0 <==> x >= 0.0
  {
    TimesPositive(x, 0.0, d);
    TimesPositive(0.0, x, d);
  }

  /** The half width before division, squared. */
  lemma HalfSquared(p: real, n: int, z: real, root: real)
    requires n > 0 && IsRoot(root, Radicand(p, n, z))
    ensures var a := z * z / n as real;
            (z * root) * (z * root) == a * p * (1.0 - p) + a * a / 4.0
  {
    var m, zz := n as real, z * z;
    var a, u := zz / m, p * (1.0 - p);
    assert (z * root) * (z * root) == zz * (root * root);
    assert zz * (u / m) == a * u by {
      MulDiv(zz, m);
      MulDiv(u, m);
      assert zz * (u / m) == (a * m) * (u / m) == a * (m * (u / m));
    }
    assert zz * (zz / (4.0 * m * m)) == a * a / 4.0 by {
      MulDiv(zz, m);
      MulDiv(zz, 4.0 * m * m);
      QuarterSquare(zz, a, m, zz / (4.0 * m * m));
    }
    assert zz * (u / m + zz / (4.0 * m * m)) == zz * (u / m) + zz * (zz / (4.0 * m * m));
    assert a * p * (1.0 - p) == a * u;
  }

  lemma QuarterSquare(zz: real, a: real, m: real, y: real)
    requires m > 0.0 && zz == a * m && y * (4.0 * m * m) == zz
    ensures zz * y == a * a / 4.0
  {
    assert y * (4.0 * m * m) == (y * 4.0 * m) * m;
    Cancel(y * 4.0 * m, a, m);
    assert zz * y == a * (m * y);
  }

  lemma Cancel(x: real, y: real, m: real)
    requires m > 0.0 && x * m == y * m
    ensures x == y
  {
    TimesPositive(x, y, m);
    TimesPositive(y, x, m);
  }

  // ---- inversion ---------------------------------------------------------

  /** The score test: the squared distance from the observed share, against the variance at r. */
  predicate ScoreTest(s: int, n: int, z: real, r: real)
    requires n > 0
  {
    n as real * (Share(s, n) - r) * (Share(s, n) - r) <= z * z * r * (1.0 - r)
  }

  lemma AlphaPositive(n: int, z: real)
    requires n > 0
    ensures z * z / n as real >= 0.0
    ensures z * z / (2.0 * n as real) == z * z / n as real / 2.0
  {
    var m, zz := n as real, z * z;
    assert zz >= 0.0;
    MulDiv(zz, m);
    MulDiv(zz, 2.0 * m);
    SignOfProduct(m, zz / m);
    assert zz / (2.0 * m) * (2.0 * m) == (zz / (2.0 * m) * 2.0) * m;
    Cancel(zz / (2.0 * m) * 2.0, zz / m, m);
  }

  /** Being within the unclamped ends, with the denominator cleared. */
  lemma EndsCleared(b: real, h: real, d: real, r: real)
    requires d > 0.0
    ensures b / d - h / d <= r <==> b - h <= d * r
    ensures r <= b / d + h / d <==> d * r <= b + h
  {
    MulDiv(b, d);
    MulDiv(h, d);
    assert (b / d - h / d) * d == b - h;
    assert (b / d + h / d) * d == b + h;
    TimesPositive(b / d - h / d, r, d);
    TimesPositive(r, b / d + h / d, d);
  }

  lemma ScoreCleared(s: int, n: int, z: real, r: real)
    requires n > 0
    ensures var p, a := Share(s, n), z * z / n as real;
            ScoreTest(s, n, z, r) <==> (p - r) * (p - r) - a * r * (1.0 - r) <= 0.0
  {
    var p, m := Share(s, n), n as real;
    var a, u, v := z * z / m, (p - r) * (p - r), r * (1.0 - r);
    MulDiv(z * z, m);
    SignOfProduct(m, u - a * v);
    assert m * (u - a * v) == m * u - (a * m) * v;
    assert m * u == m * (p - r) * (p - r);
    assert (z * z) * v == z * z * r * (1.0 - r);
    assert a * v == a * r * (1.0 - r);
  }

  predicate Inside(i: Interval, r: real) {
    i.low <= r <= i.high
  }

  /** The interval is the set of shares that the score test does not reject. */
  lemma Inversion(s: int, n: int, z: real, root: real, r: real)
    requires n > 0 && z >= 0.0 && 0.0 <= r <= 1.0
    requires IsRoot(root, Radicand(Share(s, n), n, z))
    ensures Inside(WilsonInterval(s, n, z, root).value, r) <==> ScoreTest(s, n, z, r)
  {
    hide *;
    ClampedInside(s, n, z, root, r);
    EndsInversion(Share(s, n), n, z, root, r);
    ScoreCleared(s, n, z, r);
  }

  lemma ClampedInside(s: int, n: int, z: real, root: real, r: real)
    requires n > 0 && 0.0 <= r <= 1.0 && IsRoot(root, Radicand(Share(s, n), n, z))
    ensures Inside(WilsonInterval(s, n, z, root).value, r) <==> Between(Ends(Share(s, n), n, z, root), r)
  {
    hide Ends, Radicand, Share;
  }

  predicate Between(ends: (real, real), r: real) {
    ends.0 <= r <= ends.1
  }

  lemma EndsInversion(p: real, n: int, z: real, root: real, r: real)
    requires n > 0 && z >= 0.0 && IsRoot(root, Radicand(p, n, z))
    ensures Between(Ends(p, n, z, root), r) <==> (p - r) * (p - r) - z * z / n as real * r * (1.0 - r) <= 0.0
  {
    AlphaPositive(n, z);
    HalfSquared(p, n, z, root);
    NonNegative(z, root);
    hide Ends, Radicand;
    InsideEnds(p, n, z, root, r);
    EndsTest(p, r, z * z / n as real, z * root);
  }

  lemma InsideEnds(p: real, n: int, z: real, root: real, r: real)
    requires n > 0
    ensures Between(Ends(p, n, z, root), r) <==>
            -(z * root) <= (1.0 + z * z / n as real) * r - p - z * z / n as real / 2.0 <= z * root
  {
    AlphaPositive(n, z);
    EndsCleared(p + z * z / n as real / 2.0, z * root, 1.0 + z * z / n as real, r);
  }

  lemma EndsTest(p: real, r: real, a: real, h: real)
    requires a >= 0.0 && h >= 0.0 && h * h == a * p * (1.0 - p) + a * a / 4.0
    ensures -h <= (1.0 + a) * r - p - a / 2.0 <= h <==> (p - r) * (p - r) - a * r * (1.0 - r) <= 0.0
  {
    SquareIdentity(p, r, a);
    CompareSquares((1.0 + a) * r - p - a / 2.0, h, 1.0 + a, (p - r) * (p - r) - a * r * (1.0 - r),
                   a * p * (1.0 - p) + a * a / 4.0);
  }

  lemma CompareSquares(x: real, h: real, d: real, g: real, q: real)
    requires h >= 0.0 && d > 0.0 && h * h == q && x * x - q == d * g
    ensures -h <= x <= h <==> g <= 0.0
  {
    WithinSquares(x, h);
    SignOfProduct(d, g);
  }

  lemma NonNegative(x: real, y: real)
    requires x >= 0.0 && y >= 0.0
    ensures x * y >= 0.0
  {
  }

  // ---- what the inversion gives ------------------------------------------

  lemma ShareBounds(s: int, n: int)
    requires n > 0 && 0 <= s <= n
    ensures 0.0 <= Share(s, n) <= 1.0
  {
    MulDiv(s as real, n as real);
    TimesPositive(0.0, Share(s, n), n as real);
    TimesPositive(Share(s, n), 1.0, n as real);
  }

  lemma VarianceNonNegative(p: real)
    requires 0.0 <= p <= 1.0
    ensures p * (1.0 - p) >= 0.0
  {
    NonNegative(p, 1.0 - p);
  }

  /** The observed share is never rejected. */
  lemma ScoreAtShare(s: int, n: int, z: real)
    requires n > 0 && 0 <= s <= n
    ensures ScoreTest(s, n, z, Share(s, n))
  {
    var p := Share(s, n);
    ShareBounds(s, n);
    VarianceNonNegative(p);
    NonNegativeSquare(z);
    NonNegative(z * z, p * (1.0 - p));
    assert z * z * p * (1.0 - p) == z * z * (p * (1.0 - p));
  }

  lemma NonNegativeSquare(x: real)
    ensures x * x >= 0.0
  {
  }

  /** low <= point <= high. */
  lemma PointInside(s: int, n: int, z: real, root: real)
    requires n > 0 && 0 <= s <= n && z >= 0.0 && IsRoot(root, Radicand(Share(s, n), n, z))
    ensures WilsonInterval(s, n, z, root).value.point == Share(s, n)
    ensures Inside(WilsonInterval(s, n, z, root).value, Share(s, n))
  {
    hide Ends, Radicand, Share, ScoreTest;
    ShareBounds(s, n);
    ScoreAtShare(s, n, z);
    Inversion(s, n, z, root, Share(s, n));
  }

  lemma PositiveRoot(p: real, n: int, z: real, root: real)
    requires n > 0 && 0.0 <= p <= 1.0 && z != 0.0 && IsRoot(root, Radicand(p, n, z))
    ensures root > 0.0
  {
    var m := n as real;
    var u, zz := p * (1.0 - p), z * z;
    VarianceNonNegative(p);
    MulDiv(u, m);
    SignOfProduct(m, u / m);
    PositiveSquare(z, zz);
    QuarterPositive(zz, m);
  }

  lemma QuarterPositive(x: real, m: real)
    requires x > 0.0 && m > 0.0
    ensures 4.0 * m * m != 0.0 && x / (4.0 * m * m) > 0.0
  {
    var mm := m * m;
    PositiveSquare(m, mm);
    PositiveQuotient(x, 4.0 * mm);
    assert 4.0 * m * m == 4.0 * mm;
  }

  /** The square is named because the solver forgets the sign of a product of a term with itself. */
  lemma PositiveSquare(x: real, square: real)
    requires x != 0.0 && square == x * x
    ensures square > 0.0
  {
    if x > 0.0 {
      PositiveProduct(x, x, square);
    } else {
      PositiveProduct(-x, -x, square);
    }
  }

  lemma PositiveProduct(x: real, y: real, product: real)
    requires x > 0.0 && y > 0.0 && product == x * y
    ensures product > 0.0
  {
    TimesPositive(0.0, x, y);
  }

  lemma PositiveQuotient(x: real, y: real)
    requires x > 0.0 && y > 0.0
    ensures x / y > 0.0
  {
    MulDiv(x, y);
    TimesPositive(x / y, 0.0, y);
  }

  /** With a negative z the two ends change places and the interval holds nothing. */
  lemma EmptyWhenNegative(s: int, n: int, z: real, root: real, r: real)
    requires n > 0 && 0 <= s <= n && z < 0.0 && 0.0 <= r <= 1.0
    requires IsRoot(root, Radicand(Share(s, n), n, z))
    ensures !Inside(WilsonInterval(s, n, z, root).value, r)
  {
    ShareBounds(s, n);
    PositiveRoot(Share(s, n), n, z, root);
    NegativeProduct(z, root);
    hide Ends, Radicand, Share, IsRoot;
    ClampedInside(s, n, z, root, r);
    InsideEnds(Share(s, n), n, z, root, r);
  }

  lemma NegativeProduct(x: real, y: real)
    requires x < 0.0 && y > 0.0
    ensures x * y < 0.0
  {
    TimesPositive(x, 0.0, y);
  }

  /** The code takes any z; the interval inverts the score test exactly when z is not negative. */
  lemma InversionExactly(s: int, n: int, z: real, root: real)
    requires n > 0 && 0 <= s <= n && IsRoot(root, Radicand(Share(s, n), n, z))
    ensures (forall r | 0.0 <= r <= 1.0 :: Inside(WilsonInterval(s, n, z, root).value, r) <==> ScoreTest(s, n, z, r))
       <==> z >= 0.0
  {
    hide *;
    if z >= 0.0 {
      forall r | 0.0 <= r <= 1.0
        ensures Inside(WilsonInterval(s, n, z, root).value, r) <==> ScoreTest(s, n, z, r)
      {
        Inversion(s, n, z, root, r);
      }
    } else {
      ShareBounds(s, n);
      ScoreAtShare(s, n, z);
      EmptyWhenNegative(s, n, z, root, Share(s, n));
    }
  }

  lemma EndsTimes(p: real, n: int, z: real, root: real)
    requires n > 0
    ensures var d, b := 1.0 + z * z / n as real, p + z * z / n as real / 2.0;
            Ends(p, n, z, root).0 * d == b - z * root && Ends(p, n, z, root).1 * d == b + z * root
  {
    AlphaPositive(n, z);
    Quotients(p + z * z / n as real / 2.0, z * root, 1.0 + z * z / n as real);
  }

  lemma Quotients(b: real, h: real, d: real)
    requires d > 0.0
    ensures (b / d - h / d) * d == b - h
    ensures (b / d + h / d) * d == b + h
  {
    MulDiv(b, d);
    MulDiv(h, d);
  }

  /** |h| is at most the distance from the centre to either end of [0, 1]. */
  lemma HalfFits(p: real, a: real, h: real)
    requires a >= 0.0 && 0.0 <= p <= 1.0 && h * h == a * p * (1.0 - p) + a * a / 4.0
    ensures h <= p + a / 2.0 && h <= 1.0 + a - (p + a / 2.0)
  {
    SquareIdentity(p, 0.0, a);
    SquareIdentity(p, 1.0, a);
    NonNegativeSquare(p);
    NonNegativeSquare(p - 1.0);
    NonNegative(1.0 + a, p * p);
    NonNegative(1.0 + a, (p - 1.0) * (p - 1.0));
    Below(p + a / 2.0, h);
    Below(1.0 - p + a / 2.0, h);
  }

  lemma Below(b: real, h: real)
    requires b >= 0.0 && h * h <= b * b
    ensures h <= b
  {
    WithinSquares(h, b);
  }

  /** Over the reals the clamps to 0 and 1 never change an end. */
  lemma ClampsInactive(s: int, n: int, z: real, root: real)
    requires n > 0 && 0 <= s <= n && IsRoot(root, Radicand(Share(s, n), n, z))
    ensures var i, ends := WilsonInterval(s, n, z, root).value, Ends(Share(s, n), n, z, root);
            i.low == ends.0 && i.high == ends.1
  {
    var p := Share(s, n);
    ShareBounds(s, n);
    AlphaPositive(n, z);
    HalfSquared(p, n, z, root);
    HalfFits(p, z * z / n as real, z * root);
    hide Ends, Radicand, Share;
    EndsTimes(p, n, z, root);
    UnitEnds(Ends(p, n, z, root), 1.0 + z * z / n as real, p + z * z / n as real / 2.0, z * root);
  }

  lemma UnitEnds(ends: (real, real), d: real, b: real, h: real)
    requires d > 0.0 && ends.0 * d == b - h && ends.1 * d == b + h
    requires h <= b && h <= d - b
    ensures ends.0 >= 0.0 && ends.1 <= 1.0
  {
    TimesPositive(0.0, ends.0, d);
    TimesPositive(ends.1, 1.0, d);
  }

  lemma RootUnique(a: real, b: real, x: real)
    requires IsRoot(a, x) && IsRoot(b, x)
    ensures a == b
  {
    SquareMonotone(a, b);
    SquareMonotone(b, a);
  }

  lemma ShareReflects(s: int, n: int)
    requires n > 0
    ensures Share(n - s, n) == 1.0 - Share(s, n)
  {
    var m := n as real;
    MulDiv((n - s) as real, m);
    MulDiv(s as real, m);
    Cancel(Share(n - s, n), 1.0 - Share(s, n), m);
  }

  lemma RadicandReflects(s: int, n: int, z: real)
    requires n > 0
    ensures Radicand(Share(n - s, n), n, z) == Radicand(Share(s, n), n, z)
  {
    ShareReflects(s, n);
    var p := Share(s, n);
    hide Share;
    assert (1.0 - p) * (1.0 - (1.0 - p)) == p * (1.0 - p);
  }

  /** Counting failures instead of successes reflects the interval about one half. */
  lemma Reflection(s: int, n: int, z: real, root: real)
    requires n > 0 && IsRoot(root, Radicand(Share(s, n), n, z))
    ensures IsRoot(root, Radicand(Share(n - s, n), n, z))
    ensures var i, j := WilsonInterval(s, n, z, root).value, WilsonInterval(n - s, n, z, root).value;
            j.point == 1.0 - i.point && j.low == 1.0 - i.high && j.high == 1.0 - i.low
  {
    RadicandReflects(s, n, z);
    EndsReflect(Share(s, n), n, z, root);
    ShareReflects(s, n);
    hide Ends, Share, Radicand, IsRoot;
  }

  lemma EndsReflect(p: real, n: int, z: real, root: real)
    requires n > 0
    ensures Ends(1.0 - p, n, z, root).0 == 1.0 - Ends(p, n, z, root).1
    ensures Ends(1.0 - p, n, z, root).1 == 1.0 - Ends(p, n, z, root).0
  {
    EndsTimes(p, n, z, root);
    EndsTimes(1.0 - p, n, z, root);
    AlphaPositive(n, z);
    hide Ends;
    var d := 1.0 + z * z / n as real;
    var e, f := Ends(p, n, z, root), Ends(1.0 - p, n, z, root);
    assert (1.0 - e.1) * d == d - e.1 * d && (1.0 - e.0) * d == d - e.0 * d;
    Cancel(f.0, 1.0 - e.1, d);
    Cancel(f.1, 1.0 - e.0, d);
  }

  // ---- the pre-registered verdict ----------------------------------------

  datatype Verdict = NoReferenceOrNoData | Reproduced | NotReproduced

  function Abs(x: real): (r: real) { if x < 0.0 then -x else x }

  function VerdictFor(measured: Option<Interval>, reference: Option<real>, tolerance: real): (v: Verdict) {
    if reference.None? || measured.None? then NoReferenceOrNoData
    else if Abs(measured.value.point - reference.value) <= tolerance || Inside(measured.value, reference.value) then Reproduced
    else NotReproduced
  }

  /** The verdict needs no square root: a published value is reproduced when it is within the tolerance, or
      is a share that the score test does not reject. Values outside [0, 1] are never inside the interval. */
  lemma VerdictExactly(s: int, n: int, z: real, root: real, published: real, tolerance: real)
    requires 0 <= s <= n && z >= 0.0 && (n > 0 ==> IsRoot(root, Radicand(Share(s, n), n, z)))
    ensures VerdictFor(WilsonInterval(s, n, z, root), Some(published), tolerance) ==
            if n == 0 then NoReferenceOrNoData
            else if Abs(Share(s, n) - published) <= tolerance
                    || (0.0 <= published <= 1.0 && ScoreTest(s, n, z, published)) then Reproduced
            else NotReproduced
    ensures VerdictFor(WilsonInterval(s, n, z, root), None, tolerance) == NoReferenceOrNoData
  {
    hide Ends, Share, Radicand, ScoreTest;
    if n > 0 && 0.0 <= published <= 1.0 {
      Inversion(s, n, z, root, published);
    }
  }
}
