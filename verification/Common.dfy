/** Small vocabulary shared by the whole model. */
module Common {

  datatype Option<+T> = None | Some(value: T)

  datatype Result<+T, +E> = Success(value: T) | Failure(error: E)

  function Flatten<T>(xss: seq<seq<T>>): (r: seq<T>) {
    if xss == [] then [] else xss[0] + Flatten(xss[1..])
  }

  function Count<T>(p: T -> bool, xs: seq<T>): (n: nat) {
    if xs == [] then 0 else (if p(xs[0]) then 1 else 0) + Count(p, xs[1..])
  }

  predicate Distinct<T(==)>(xs: seq<T>) {
    forall i, j :: 0 <= i < j < |xs| ==> xs[i] != xs[j]
  }

  /** `ys` are the elements of `xs` at the positions `at`, in their order. */
  predicate Selects<T(==)>(xs: seq<T>, ys: seq<T>, at: seq<nat>) {
    && |at| == |ys|
    && (forall k | 0 <= k < |at| :: at[k] < |xs| && ys[k] == xs[at[k]])
    && (forall k, l | 0 <= k < l < |at| :: at[k] < at[l])
  }

  lemma SelectsSnoc<T>(xs: seq<T>, x: T, ys: seq<T>, at: seq<nat>)
    requires Selects(xs, ys, at)
    ensures Selects(xs + [x], ys, at)
    ensures Selects(xs + [x], ys + [x], at + [|xs|])
  {
  }

  lemma Assoc<T>(a: seq<T>, b: seq<T>, c: seq<T>)
    ensures (a + b) + c == a + (b + c)
  {
  }

  lemma FlattenAppend<T>(xss: seq<seq<T>>, yss: seq<seq<T>>)
    ensures Flatten(xss + yss) == Flatten(xss) + Flatten(yss)
  {
    if xss == [] {
      assert xss + yss == yss;
    } else {
      assert (xss + yss)[1..] == xss[1..] + yss;
    }
  }

  lemma NoPrefix<T>(a: seq<T>, b: seq<T>, i: nat)
    requires i < |a| && i < |b| && a[i] != b[i]
    ensures !(a <= b)
  {
  }

  lemma Multiple(x: int, d: int)
    requires d > 0
    ensures x >= 1 ==> x * d >= d
    ensures x <= -1 ==> x * d <= -d
  {
    if x >= 1 {
      assert x * d == (x - 1) * d + d && (x - 1) * d >= 0;
    } else if x <= -1 {
      assert x * d == (x + 1) * d - d && (x + 1) * d <= 0;
    }
  }

  lemma DivMod(q: int, d: int, r: int)
    requires 0 <= r < d
    ensures (q * d + r) / d == q && (q * d + r) % d == r
  {
    var v := q * d + r;
    var e, m := v / d, v % d;
    assert v == e * d + m;
    assert (e - q) * d == e * d - q * d;
    Multiple(e - q, d);
  }

  lemma SubsetSize<T>(a: set<T>, b: set<T>)
    requires a <= b
    ensures |a| <= |b|
  {
    assert b == a + (b - a);
  }

  lemma ProperSubsetSize<T>(a: set<T>, b: set<T>, x: T)
    requires a <= b && x in b && x !in a
    ensures |a| < |b|
  {
    SubsetSize(a + {x}, b);
  }
}
