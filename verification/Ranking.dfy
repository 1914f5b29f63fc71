/** The Pareto front of accuracy against latency, and ranking under limits. */
module Ranking {
  import opened Common

  datatype Row = Row(system: string, accuracy: real, p99: real, tokens: real)

  datatype Limits = Limits(maxP99: Option<real>, maxTokens: Option<real>)

  // ---- stable sorting ----------------------------------------------------

  /** The order of the sort key: higher accuracy first, then lower latency. */
  predicate Before(a: Row, b: Row) {
    a.accuracy > b.accuracy || (a.accuracy == b.accuracy && a.p99 < b.p99)
  }

  predicate SameKey(a: Row, b: Row) {
    a.accuracy == b.accuracy && a.p99 == b.p99
  }

  predicate Sorted(rows: seq<Row>) {
    forall i, j | 0 <= i < j < |rows| :: !Before(rows[j], rows[i])
  }

  /** A row goes in front of the first row it does not come after, so it stays ahead of its equals. */
  function Insert(r: Row, rows: seq<Row>): (s: seq<Row>) {
    if rows == [] || !Before(rows[0], r) then [r] + rows else [rows[0]] + Insert(r, rows[1..])
  }

  function Sort(rows: seq<Row>): (s: seq<Row>) {
    if rows == [] then [] else Insert(rows[0], Sort(rows[1..]))
  }

  /** The rows with the key of r, in their order. */
  function Class(r: Row, rows: seq<Row>): (s: seq<Row>) {
    if rows == [] then [] else (if SameKey(rows[0], r) then [rows[0]] else []) + Class(r, rows[1..])
  }

  lemma {:induction false} InsertMembers(r: Row, rows: seq<Row>)
    ensures multiset(Insert(r, rows)) == multiset(rows) + multiset{r}
  {
    if rows != [] && Before(rows[0], r) {
      InsertMembers(r, rows[1..]);
      assert rows == [rows[0]] + rows[1..];
    }
  }

  lemma {:induction false} InsertSorted(r: Row, rows: seq<Row>)
    requires Sorted(rows)
    ensures Sorted(Insert(r, rows))
  {
    if rows != [] && Before(rows[0], r) {
      var rest := Insert(r, rows[1..]);
      InsertSorted(r, rows[1..]);
      InsertMembers(r, rows[1..]);
      forall j | 0 <= j < |rest| ensures !Before(rest[j], rows[0]) {
        assert rest[j] in multiset(rest);
        if rest[j] != r {
          assert rest[j] in multiset(rows[1..]);
        }
      }
    }
  }

  lemma {:induction false} InsertKeepsClass(r: Row, rows: seq<Row>, k: Row)
    ensures Class(k, Insert(r, rows)) == (if SameKey(r, k) then [r] else []) + Class(k, rows)
  {
    if rows != [] && Before(rows[0], r) {
      var rest := Insert(r, rows[1..]);
      InsertKeepsClass(r, rows[1..], k);
      assert ([rows[0]] + rest)[1..] == rest;
    } else {
      assert ([r] + rows)[1..] == rows;
    }
  }

  /** The ranking is sorted, holds the same rows, and keeps rows of equal key in their given order. */
  lemma {:induction false} SortIsStable(rows: seq<Row>)
    ensures Sorted(Sort(rows)) && multiset(Sort(rows)) == multiset(rows)
    ensures forall k :: Class(k, Sort(rows)) == Class(k, rows)
  {
    if rows != [] {
      SortIsStable(rows[1..]);
      InsertSorted(rows[0], Sort(rows[1..]));
      InsertMembers(rows[0], Sort(rows[1..]));
      assert rows == [rows[0]] + rows[1..];
      forall k ensures Class(k, Sort(rows)) == Class(k, rows) {
        InsertKeepsClass(rows[0], Sort(rows[1..]), k);
      }
    }
  }

  lemma {:induction false} ClassMember(k: Row, rows: seq<Row>) returns (j: nat)
    requires Class(k, rows) != []
    ensures j < |rows| && SameKey(rows[j], k)
  {
    if SameKey(rows[0], k) {
      j := 0;
    } else {
      j := ClassMember(k, rows[1..]);
      j := j + 1;
    }
  }

  lemma HeadNotBefore(a: seq<Row>, b: seq<Row>)
    requires a != [] && Sorted(b) && Class(a[0], a) == Class(a[0], b)
    ensures b != [] && !Before(a[0], b[0])
  {
    assert Class(a[0], a)[0] == a[0];
    var j := ClassMember(a[0], b);
    assert j > 0 ==> !Before(b[j], b[0]);
  }

  lemma TailClass(a: seq<Row>, b: seq<Row>, k: Row)
    requires a != [] && b != [] && a[0] == b[0] && Class(k, a) == Class(k, b)
    ensures Class(k, a[1..]) == Class(k, b[1..])
  {
    var head := if SameKey(a[0], k) then [a[0]] else [];
    assert Class(k, a[1..]) == Class(k, a)[|head|..];
    assert Class(k, b[1..]) == Class(k, b)[|head|..];
  }

  /** Those three things leave no choice: any sorted list with the same classes is the ranking. */
  lemma {:induction false} StableSortUnique(a: seq<Row>, b: seq<Row>)
    requires Sorted(a) && Sorted(b) && forall k :: Class(k, a) == Class(k, b)
    ensures a == b
    decreases |a| + |b|
  {
    if a != [] || b != [] {
      SameHead(a, b);
      forall k ensures Class(k, a[1..]) == Class(k, b[1..]) {
        TailClass(a, b, k);
      }
      assert Sorted(a[1..]) && Sorted(b[1..]);
      hide Sorted, Class;
      StableSortUnique(a[1..], b[1..]);
      assert a == [a[0]] + a[1..] && b == [b[0]] + b[1..];
    }
  }

  lemma SameHead(a: seq<Row>, b: seq<Row>)
    requires Sorted(a) && Sorted(b) && forall k :: Class(k, a) == Class(k, b)
    requires a != [] || b != []
    ensures a != [] && b != [] && a[0] == b[0]
  {
    if a != [] {
      HeadNotBefore(a, b);
      HeadNotBefore(b, a);
      assert Class(a[0], a)[0] == a[0] && Class(a[0], b)[0] == b[0];
    } else {
      HeadNotBefore(b, a);
    }
  }

  // ---- ranking under limits ----------------------------------------------

  predicate Within(r: Row, l: Limits) {
    && (l.maxP99.Some? ==> r.p99 <= l.maxP99.value)
    && (l.maxTokens.Some? ==> r.tokens <= l.maxTokens.value)
  }

  function Admitted(rows: seq<Row>, l: Limits): (s: seq<Row>) {
    if rows == [] then []
    else if Within(rows[0], l) then [rows[0]] + Admitted(rows[1..], l)
    else Admitted(rows[1..], l)
  }

  function Rank(rows: seq<Row>, l: Limits): (s: seq<Row>) {
    Sort(Admitted(rows, l))
  }

  const NO_LIMITS := Limits(None, None)

  lemma {:induction false} AdmittedMembers(rows: seq<Row>, l: Limits, r: Row)
    ensures r in Admitted(rows, l) <==> r in rows && Within(r, l)
  {
    if rows != [] {
      AdmittedMembers(rows[1..], l, r);
      assert rows == [rows[0]] + rows[1..];
    }
  }

  lemma {:induction false} NoLimitsAdmitAll(rows: seq<Row>)
    ensures Admitted(rows, NO_LIMITS) == rows
  {
    if rows != [] {
      NoLimitsAdmitAll(rows[1..]);
      assert rows == [rows[0]] + rows[1..];
    }
  }

  lemma AdmittedCons(r: Row, rest: seq<Row>, l: Limits)
    ensures Admitted([r] + rest, l) == if Within(r, l) then [r] + Admitted(rest, l) else Admitted(rest, l)
  {
    assert ([r] + rest)[1..] == rest;
  }

  lemma InsertPast(head: Row, rest: seq<Row>, r: Row)
    requires Before(head, r)
    ensures Insert(r, [head] + rest) == [head] + Insert(r, rest)
  {
    assert ([head] + rest)[1..] == rest;
  }

  lemma {:induction false} InsertCommutes(r: Row, rows: seq<Row>, l: Limits)
    requires Sorted(rows)
    ensures Admitted(Insert(r, rows), l) == if Within(r, l) then Insert(r, Admitted(rows, l)) else Admitted(rows, l)
  {
    if rows != [] && Before(rows[0], r) {
      InsertCommutes(r, rows[1..], l);
      AdmittedCons(rows[0], Insert(r, rows[1..]), l);
      InsertPast(rows[0], Admitted(rows[1..], l), r);
      hide Sorted, Before, Within;
    } else {
      AdmittedNotBefore(r, rows, l);
      AdmittedCons(r, rows, l);
      hide Sorted, Before, Within;
    }
  }

  lemma {:induction false} AdmittedNotBefore(r: Row, rows: seq<Row>, l: Limits)
    requires Sorted(rows) && (rows == [] || !Before(rows[0], r))
    ensures Admitted(rows, l) == [] || !Before(Admitted(rows, l)[0], r)
  {
    if rows != [] && !Within(rows[0], l) {
      AdmittedNotBefore(r, rows[1..], l);
    }
  }

  lemma SortCons(r: Row, rest: seq<Row>)
    ensures Sort([r] + rest) == Insert(r, Sort(rest))
  {
    assert ([r] + rest)[1..] == rest;
  }

  lemma {:induction false} SortCommutes(rows: seq<Row>, l: Limits)
    ensures Sort(Admitted(rows, l)) == Admitted(Sort(rows), l)
  {
    if rows != [] {
      hide Sorted, Insert, Within, Class;
      SortCommutes(rows[1..], l);
      SortIsStable(rows[1..]);
      InsertCommutes(rows[0], Sort(rows[1..]), l);
      SortCons(rows[0], Admitted(rows[1..], l));
    }
  }

  /** Ranking under limits is the unlimited ranking with the rows beyond the limits taken out: limits never
      reorder the rows that stay. */
  lemma LimitsOnlyFilter(rows: seq<Row>, l: Limits)
    ensures Rank(rows, l) == Admitted(Rank(rows, NO_LIMITS), l)
  {
    SortCommutes(rows, l);
    NoLimitsAdmitAll(rows);
  }

  /** The winner is one of the admitted rows, and none of them comes before it. */
  lemma WinnerIsBest(rows: seq<Row>, l: Limits, o: Row)
    requires Rank(rows, l) != []
    ensures Rank(rows, l)[0] in rows && Within(Rank(rows, l)[0], l)
    ensures o in rows && Within(o, l) ==> !Before(o, Rank(rows, l)[0])
  {
    var ranked, ok := Rank(rows, l), Admitted(rows, l);
    SortIsStable(ok);
    assert ranked[0] in multiset(ok);
    AdmittedMembers(rows, l, ranked[0]);
    AdmittedMembers(rows, l, o);
    if o in ok {
      assert o in multiset(ranked);
      var j :| 0 <= j < |ranked| && ranked[j] == o;
      assert j > 0 ==> !Before(ranked[j], ranked[0]);
    }
  }

  /** The ranking, in the terms of the rows: those within both limits, with their multiplicity, by falling
      accuracy and, for equal accuracy, rising latency. */
  lemma RankExactly(rows: seq<Row>, l: Limits, r: Row, i: nat, j: nat)
    ensures var ok := (l.maxP99.Some? ==> r.p99 <= l.maxP99.value) && (l.maxTokens.Some? ==> r.tokens <= l.maxTokens.value);
            multiset(Rank(rows, l))[r] == if ok then multiset(rows)[r] else 0
    ensures i < j < |Rank(rows, l)| ==>
              var a, b := Rank(rows, l)[i], Rank(rows, l)[j];
              a.accuracy > b.accuracy || (a.accuracy == b.accuracy && a.p99 <= b.p99)
  {
    SortIsStable(Admitted(rows, l));
    AdmittedCounts(rows, l, r);
    hide Sort, Class, Admitted;
  }

  lemma {:induction false} AdmittedCounts(rows: seq<Row>, l: Limits, r: Row)
    ensures multiset(Admitted(rows, l))[r] == if Within(r, l) then multiset(rows)[r] else 0
  {
    if rows != [] {
      AdmittedCounts(rows[1..], l, r);
      assert rows == [rows[0]] + rows[1..];
    }
  }

  // ---- inversion ---------------------------------------------------------

  datatype Inversion = Inversion(observed: bool, accuracyWinner: Option<string>, constrainedWinner: Option<string>)

  function Winner(ranked: seq<Row>): (s: Option<string>) {
    if ranked == [] then None else Some(ranked[0].system)
  }

  function FindInversion(rows: seq<Row>, l: Limits): (i: Inversion) {
    var base, constrained := Rank(rows, NO_LIMITS), Rank(rows, l);
    Inversion(base != [] && constrained != [] && base[0].system != constrained[0].system, Winner(base), Winner(constrained))
  }

  predicate OneRowPerSystem(rows: seq<Row>) {
    forall i, j | 0 <= i < |rows| && 0 <= j < |rows| && rows[i].system == rows[j].system :: rows[i] == rows[j]
  }

  lemma {:induction false} HeadOfAdmitted(ranked: seq<Row>, l: Limits)
    requires ranked != []
    ensures Within(ranked[0], l) ==> Admitted(ranked, l) != [] && Admitted(ranked, l)[0] == ranked[0]
  {
  }

  /** An observed inversion means that the unconstrained winner breaks a limit. With one row per system the
      converse holds too, provided some row is within the limits. */
  lemma InversionExactly(rows: seq<Row>, l: Limits)
    ensures var i, base, constrained := FindInversion(rows, l), Rank(rows, NO_LIMITS), Rank(rows, l);
            && (i.observed <==> base != [] && constrained != [] && i.accuracyWinner != i.constrainedWinner)
            && i.accuracyWinner == (if base == [] then None else Some(base[0].system))
            && i.constrainedWinner == (if constrained == [] then None else Some(constrained[0].system))
    ensures FindInversion(rows, l).observed ==> !Within(Rank(rows, NO_LIMITS)[0], l)
    ensures OneRowPerSystem(rows) ==>
              (FindInversion(rows, l).observed <==>
               Rank(rows, l) != [] && Rank(rows, NO_LIMITS) != [] && !Within(Rank(rows, NO_LIMITS)[0], l))
  {
    LimitsOnlyFilter(rows, l);
    var base, constrained := Rank(rows, NO_LIMITS), Rank(rows, l);
    if base != [] && constrained != [] {
      HeadOfAdmitted(base, l);
      WinnerIsBest(rows, NO_LIMITS, base[0]);
      WinnerIsBest(rows, l, constrained[0]);
    }
  }

  // ---- the Pareto front --------------------------------------------------

  predicate Dominates(o: Row, r: Row) {
    o.accuracy >= r.accuracy && o.p99 <= r.p99 && (o.accuracy > r.accuracy || o.p99 < r.p99)
  }

  predicate Dominated(r: Row, rows: seq<Row>) {
    exists k | 0 <= k < |rows| :: Dominates(rows[k], r)
  }

  /** The rows of `some` that no row of `all` dominates. */
  function Undominated(some: seq<Row>, all: seq<Row>): (s: seq<Row>) {
    if some == [] then []
    else if Dominated(some[0], all) then Undominated(some[1..], all)
    else [some[0]] + Undominated(some[1..], all)
  }

  function Pareto(rows: seq<Row>): (s: seq<Row>) {
    Undominated(rows, rows)
  }

  lemma {:induction false} UndominatedMembers(some: seq<Row>, all: seq<Row>, r: Row)
    ensures r in Undominated(some, all) <==> r in some && !Dominated(r, all)
  {
    if some != [] {
      UndominatedMembers(some[1..], all, r);
      assert some == [some[0]] + some[1..];
    }
  }

  /** Which rows the front keeps, all of them with their multiplicity: those for which no row is more accurate
      at no more latency, nor as accurate at less. */
  lemma ParetoExactly(rows: seq<Row>, r: Row)
    ensures var beaten := exists o | o in rows ::
                            (o.accuracy > r.accuracy && o.p99 <= r.p99) || (o.accuracy == r.accuracy && o.p99 < r.p99);
            multiset(Pareto(rows))[r] == if beaten then 0 else multiset(rows)[r]
  {
    UndominatedCounts(rows, rows, r);
    hide Undominated;
    if Dominated(r, rows) {
      var k :| 0 <= k < |rows| && Dominates(rows[k], r);
      assert rows[k] in rows;
    }
  }

  lemma {:induction false} UndominatedCounts(some: seq<Row>, all: seq<Row>, r: Row)
    ensures multiset(Undominated(some, all))[r] == if Dominated(r, all) then 0 else multiset(some)[r]
  {
    if some != [] {
      UndominatedCounts(some[1..], all, r);
      assert some == [some[0]] + some[1..];
      hide Dominated;
    }
  }

  /** No row of the front dominates another. */
  lemma Antichain(rows: seq<Row>, o: Row, r: Row)
    requires o in Pareto(rows) && r in Pareto(rows)
    ensures !Dominates(o, r)
  {
    UndominatedMembers(rows, rows, o);
    UndominatedMembers(rows, rows, r);
  }

  ghost function Dominators(r: Row, rows: seq<Row>): (s: set<nat>) {
    set k | 0 <= k < |rows| && Dominates(rows[k], r)
  }

  /** Every row that was dropped is dominated by a row that was kept. */
  lemma {:induction false} DroppedIsDominated(rows: seq<Row>, r: Row) returns (o: Row)
    requires r in rows && r !in Pareto(rows)
    ensures o in Pareto(rows) && Dominates(o, r)
    decreases |Dominators(r, rows)|
  {
    UndominatedMembers(rows, rows, r);
    var k :| 0 <= k < |rows| && Dominates(rows[k], r);
    o := rows[k];
    if o !in Pareto(rows) {
      assert Dominators(o, rows) <= Dominators(r, rows);
      assert k in Dominators(r, rows) && k !in Dominators(o, rows);
      ProperSubsetSize(Dominators(o, rows), Dominators(r, rows), k);
      o := DroppedIsDominated(rows, o);
    }
  }

  lemma {:induction false} NothingDropped(some: seq<Row>, all: seq<Row>)
    requires forall r | r in some :: !Dominated(r, all)
    ensures Undominated(some, all) == some
  {
    if some != [] {
      assert some[0] in some;
      NothingDropped(some[1..], all);
      assert some == [some[0]] + some[1..];
    }
  }

  lemma ParetoIdempotent(rows: seq<Row>)
    ensures Pareto(Pareto(rows)) == Pareto(rows)
  {
    var front := Pareto(rows);
    forall r | r in front ensures !Dominated(r, front) {
      forall k | 0 <= k < |front| ensures !Dominates(front[k], r) {
        Antichain(rows, front[k], r);
      }
    }
    NothingDropped(front, front);
  }

  /** The winner under a latency limit alone, or under no limit, is on the front. */
  lemma LatencyWinnerOnFront(rows: seq<Row>, maxP99: Option<real>)
    requires Rank(rows, Limits(maxP99, None)) != []
    ensures Rank(rows, Limits(maxP99, None))[0] in Pareto(rows)
  {
    var l := Limits(maxP99, None);
    var w := Rank(rows, l)[0];
    WinnerIsBest(rows, l, w);
    forall k | 0 <= k < |rows| ensures !Dominates(rows[k], w) {
      WinnerIsBest(rows, l, rows[k]);
    }
    UndominatedMembers(rows, rows, w);
  }

  predicate OverTokens(r: Row, l: Limits) {
    l.maxTokens.Some? && r.tokens > l.maxTokens.value
  }

  /** No admitted row is more accurate. */
  predicate MostAccurate(r: Row, rows: seq<Row>, l: Limits) {
    Within(r, l) && forall k | 0 <= k < |rows| && Within(rows[k], l) :: rows[k].accuracy <= r.accuracy
  }

  /** The row dominates every most accurate admitted row. */
  predicate Outshines(o: Row, rows: seq<Row>, l: Limits) {
    forall k | 0 <= k < |rows| && MostAccurate(rows[k], rows, l) :: Dominates(o, rows[k])
  }

  /** Whoever dominates the winner does not count because of its tokens. */
  lemma DominatorOverTokens(rows: seq<Row>, l: Limits, o: Row)
    requires Rank(rows, l) != [] && o in rows && Dominates(o, Rank(rows, l)[0])
    ensures OverTokens(o, l)
  {
    WinnerIsBest(rows, l, o);
  }

  /** A row dominates the winner exactly when it dominates every most accurate admitted row. */
  lemma DominatesWinnerExactly(rows: seq<Row>, l: Limits, o: Row)
    requires Rank(rows, l) != []
    ensures Dominates(o, Rank(rows, l)[0]) <==> Outshines(o, rows, l)
  {
    var w := Rank(rows, l)[0];
    forall k | 0 <= k < |rows| ensures Within(rows[k], l) ==> !Before(rows[k], w) {
      WinnerIsBest(rows, l, rows[k]);
    }
    WinnerIsBest(rows, l, w);
    hide Rank, Within;
    var i :| 0 <= i < |rows| && rows[i] == w;
    assert MostAccurate(rows[i], rows, l);
  }

  /** The winner under any limits is on the front exactly when no row beyond the token limit dominates
      all the most accurate admitted rows. */
  lemma WinnerOnFrontExactly(rows: seq<Row>, l: Limits)
    requires Rank(rows, l) != []
    ensures Rank(rows, l)[0] in Pareto(rows)
            <==> !exists k | 0 <= k < |rows| :: OverTokens(rows[k], l) && Outshines(rows[k], rows, l)
  {
    var w := Rank(rows, l)[0];
    WinnerIsBest(rows, l, w);
    UndominatedMembers(rows, rows, w);
    forall k | 0 <= k < |rows|
      ensures Dominates(rows[k], w) <==> OverTokens(rows[k], l) && Outshines(rows[k], rows, l)
    {
      DominatesWinnerExactly(rows, l, rows[k]);
      if Dominates(rows[k], w) {
        DominatorOverTokens(rows, l, rows[k]);
      }
    }
    hide Rank, Outshines, OverTokens, Dominates, Pareto;
  }

  /** A token limit can make a row win that is not on the front: the row it cuts dominates the only one left. */
  lemma TokenWinnerMayBeOffFront()
    ensures var rows, l := [Row("a", 0.9, 1.0, 500.0), Row("b", 0.8, 2.0, 100.0)], Limits(None, Some(200.0));
            && Rank(rows, l) == [rows[1]]
            && rows[1] !in Pareto(rows)
  {
    var rows, l := [Row("a", 0.9, 1.0, 500.0), Row("b", 0.8, 2.0, 100.0)], Limits(None, Some(200.0));
    assert rows[1..] == [rows[1]] && rows[1..][1..] == [];
    assert Admitted(rows[1..], l) == [rows[1]];
    assert Admitted(rows, l) == [rows[1]];
    assert Dominates(rows[0], rows[1]);
    UndominatedMembers(rows, rows, rows[1]);
  }
}
