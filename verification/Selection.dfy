/** Loading checks and the seeded selection of questions. The generator is an arbitrary source of
    indices, so every statement holds for every seed. */
module Selection {
  import opened Common
  import opened BenchRun

  datatype DatasetError = DuplicateIds | UnknownIds

  function IdSet(insts: seq<Instance>): (r: set<QuestionId>) {
    set i | 0 <= i < |insts| :: insts[i].id
  }

  /** The duplicate check of the loader: as many distinct ids as instances. */
  function Checked(insts: seq<Instance>): (r: Result<seq<Instance>, DatasetError>) {
    if |IdSet(insts)| != |insts| then Failure(DuplicateIds) else Success(insts)
  }

  lemma IdSetSnoc(init: seq<Instance>, last: Instance)
    ensures IdSet(init + [last]) == IdSet(init) + {last.id}
    ensures DistinctIds(init + [last]) <==> DistinctIds(init) && last.id !in IdSet(init)
  {
    var insts := init + [last];
    assert insts[|init|] == last && forall i | 0 <= i < |init| :: insts[i] == init[i];
    assert IdSet(insts) == IdSet(init) + {last.id} by {
      forall i | 0 <= i < |init| ensures init[i].id in IdSet(insts) {
        assert insts[i].id in IdSet(insts);
      }
      assert insts[|init|].id in IdSet(insts);
    }
    DistinctSnoc(init, last);
  }

  lemma DistinctSnoc(init: seq<Instance>, last: Instance)
    ensures DistinctIds(init + [last]) <==> DistinctIds(init) && last.id !in IdSet(init)
  {
    var insts := init + [last];
    assert insts[|init|] == last && forall i | 0 <= i < |init| :: insts[i] == init[i];
    if DistinctIds(insts) {
      forall i | 0 <= i < |init| ensures init[i].id != last.id {
        assert insts[i].id != insts[|init|].id;
      }
      forall i, j | 0 <= i < j < |init| ensures init[i].id != init[j].id {
        assert insts[i].id != insts[j].id;
      }
    } else {
      var i, j :| 0 <= i < j < |insts| && insts[i].id == insts[j].id;
      assert insts[i] == init[i] && init[i].id in IdSet(init);
    }
  }

  /** The check passes exactly the data sets whose question ids are pairwise distinct. */
  lemma {:induction false} CheckedExactly(insts: seq<Instance>)
    ensures |IdSet(insts)| <= |insts|
    ensures Checked(insts) == if DistinctIds(insts) then Success(insts) else Failure(DuplicateIds)
    decreases |insts|
  {
    if insts != [] {
      var init, last := insts[..|insts| - 1], insts[|insts| - 1];
      CheckedExactly(init);
      assert insts == init + [last];
      IdSetSnoc(init, last);
      hide IdSet, DistinctIds;
      if last.id in IdSet(init) {
        assert IdSet(insts) == IdSet(init);
      }
    }
  }

  predicate IsPermutation(order: seq<nat>, n: nat) {
    |order| == n && (forall i | 0 <= i < n :: order[i] < n) && Distinct(order)
  }

  /** `Random.shuffle`: the generator's answers are arbitrary. */
  method Shuffle(a: array<nat>)
    requires IsPermutation(a[..], a.Length)
    modifies a
    ensures IsPermutation(a[..], a.Length)
  {
    var i := a.Length - 1;
    while i >= 1
      invariant -1 <= i < a.Length
      invariant IsPermutation(a[..], a.Length)
    {
      var j :| 0 <= j <= i;
      ghost var before := a[..];
      a[i], a[j] := a[j], a[i];
      assert a[..] == before[i := before[j]][j := before[i]];
      i := i - 1;
    }
  }

  function ById(insts: seq<Instance>, id: QuestionId): (r: Option<Instance>)
    ensures r.Some? ==> r.value in insts && r.value.id == id
    ensures r.None? <==> id !in IdSet(insts)
    decreases |insts|
  {
    if insts == [] then None
    else
      var last := insts[|insts| - 1];
      assert IdSet(insts) == IdSet(insts[..|insts| - 1]) + {last.id};
      if last.id == id then Some(last) else ById(insts[..|insts| - 1], id)
  }

  /** The pool: the wanted questions in the given order, or everything. */
  function Pool(insts: seq<Instance>, wanted: seq<QuestionId>): (r: Result<seq<Instance>, DatasetError>) {
    if wanted == [] then Success(insts)
    else if exists q | q in wanted :: ById(insts, q).None? then Failure(UnknownIds)
    else Success(seq(|wanted|, i requires 0 <= i < |wanted| && ById(insts, wanted[i]).Some? => ById(insts, wanted[i]).value))
  }

  /** `ordered[:limit] if limit else ordered`: no limit and limit 0 keep everything, a negative limit
      drops that many from the end. */
  function Limited<T>(xs: seq<T>, limit: Option<int>): (r: seq<T>)
    ensures r <= xs
  {
    if limit.None? || limit.value == 0 || limit.value >= |xs| then xs
    else if limit.value > 0 then xs[..limit.value]
    else if -limit.value >= |xs| then [] else xs[..|xs| + limit.value]
  }

  function Pick<T>(xs: seq<T>, order: seq<nat>): (r: seq<T>)
    requires IsPermutation(order, |xs|)
    ensures |r| == |xs| && forall i | 0 <= i < |r| :: r[i] == xs[order[i]]
  {
    seq(|xs|, i requires 0 <= i < |xs| => xs[order[i]])
  }

  method SelectInstances(insts: seq<Instance>, limit: Option<int>, wanted: seq<QuestionId>)
    returns (r: Result<seq<Instance>, DatasetError>, order: seq<nat>)
    ensures Pool(insts, wanted).Failure? ==> r == Failure(UnknownIds)
    ensures Pool(insts, wanted).Success? ==>
              && IsPermutation(order, |Pool(insts, wanted).value|)
              && r == Success(Limited(Pick(Pool(insts, wanted).value, order), limit))
  {
    var chosen := Pool(insts, wanted);
    if chosen.Failure? {
      return Failure(UnknownIds), [];
    }
    var pool := chosen.value;
    var indices := new nat[|pool|](i => i);
    Shuffle(indices);
    order := indices[..];
    r := Success(Limited(Pick(pool, order), limit));
  }

  /** What a limit keeps of a list: a positive one that many elements, a negative one all but that many, none
      and zero everything. */
  lemma LimitedExactly<T>(xs: seq<T>, limit: int)
    ensures Limited(xs, None) == xs && Limited(xs, Some(0)) == xs
    ensures limit > 0 ==> Limited(xs, Some(limit)) == if limit < |xs| then xs[..limit] else xs
    ensures limit < 0 ==> |Limited(xs, Some(limit))| == if |xs| + limit > 0 then |xs| + limit else 0
  {
  }

  /** The pool: everything in the order of the data set, or the wanted questions in the order they were asked
      for, the last of several instances with one id; an unknown id is an error. */
  lemma PoolExactly(insts: seq<Instance>, wanted: seq<QuestionId>, i: nat)
    ensures Pool(insts, []) == Success(insts)
    ensures Pool(insts, wanted).Failure? <==> exists q | q in wanted :: forall k | 0 <= k < |insts| :: insts[k].id != q
    ensures wanted != [] && Pool(insts, wanted).Success? && i < |wanted| ==>
              && |Pool(insts, wanted).value| == |wanted|
              && exists k: nat :: IsLast(insts, k, wanted[i]) && Pool(insts, wanted).value[i] == insts[k]
  {
    forall q ensures ById(insts, q).None? <==> forall k | 0 <= k < |insts| :: insts[k].id != q {
      assert q in IdSet(insts) <==> exists k | 0 <= k < |insts| :: insts[k].id == q;
    }
    if wanted != [] && Pool(insts, wanted).Success? && i < |wanted| {
      assert wanted[i] in wanted;
      var k := LastWithId(insts, wanted[i]);
    }
    hide ById;
  }

  /** The last instance with the id. */
  predicate IsLast(insts: seq<Instance>, k: nat, id: QuestionId) {
    k < |insts| && insts[k].id == id && forall j | k < j < |insts| :: insts[j].id != id
  }

  lemma {:induction false} LastWithId(insts: seq<Instance>, id: QuestionId) returns (k: nat)
    requires ById(insts, id).Some?
    ensures IsLast(insts, k, id) && ById(insts, id).value == insts[k]
    decreases |insts|
  {
    var init, last := insts[..|insts| - 1], insts[|insts| - 1];
    if last.id == id {
      k := |insts| - 1;
    } else {
      k := LastWithId(init, id);
    }
  }

  /** Whatever the seed, selecting from a pool of distinct questions selects distinct questions; without
      a limit the selection is distinct only then. */
  lemma SelectionDistinctExactly(pool: seq<Instance>, order: seq<nat>, limit: Option<int>)
    requires IsPermutation(order, |pool|)
    ensures DistinctIds(pool) ==> DistinctIds(Limited(Pick(pool, order), limit))
    ensures DistinctIds(Pick(pool, order)) <==> DistinctIds(pool)
  {
    var picked := Pick(pool, order);
    if DistinctIds(pool) {
      forall i, j | 0 <= i < j < |picked| ensures picked[i].id != picked[j].id {
        assert order[i] != order[j];
        assert pool[order[i]].id != pool[order[j]].id;
      }
    } else {
      var i, j :| 0 <= i < j < |pool| && pool[i].id == pool[j].id;
      var k := PermutationHits(order, i);
      var l := PermutationHits(order, j);
      assert k != l && picked[k].id == picked[l].id;
    }
  }

  /** A permutation reaches every index. */
  lemma PermutationHits(order: seq<nat>, v: nat) returns (k: nat)
    requires IsPermutation(order, |order|) && v < |order|
    ensures k < |order| && order[k] == v
  {
    var range := Below(|order|);
    var values := set i | 0 <= i < |order| :: order[i];
    ValuesSize(order);
    assert values <= range;
    SameSize(values, range);
    assert v in values;
    k :| 0 <= k < |order| && order[k] == v;
  }

  lemma SameSize(a: set<nat>, b: set<nat>)
    requires a <= b && |a| == |b|
    ensures a == b
  {
    assert |b - a| == 0;
  }

  function Below(n: nat): (r: set<nat>)
    ensures |r| == n && forall i: nat :: i in r <==> i < n
  {
    if n == 0 then {} else Below(n - 1) + {n - 1}
  }

  lemma {:induction false} ValuesSize(order: seq<nat>)
    requires Distinct(order)
    ensures |(set i | 0 <= i < |order| :: order[i])| == |order|
  {
    if order != [] {
      var init, last := order[..|order| - 1], order[|order| - 1];
      ValuesSize(init);
      assert (set i | 0 <= i < |order| :: order[i]) == (set i | 0 <= i < |init| :: init[i]) + {last};
    }
  }

  /** A loaded data set run as a whole meets the assumption of the exactly-once law, and every question
      of the data set is selected. */
  lemma WholeDatasetDistinct(insts: seq<Instance>, order: seq<nat>, i: nat)
    requires Checked(insts).Success? && IsPermutation(order, |insts|) && i < |insts|
    ensures Pool(insts, []) == Success(insts)
    ensures DistinctIds(Limited(Pick(insts, order), None))
    ensures insts[i] in Limited(Pick(insts, order), None)
  {
    CheckedExactly(insts);
    SelectionDistinctExactly(insts, order, None);
    var k := PermutationHits(order, i);
    assert Pick(insts, order)[k] == insts[i];
  }

  /** With explicit question ids the pool is distinct exactly when the ids asked for are. */
  lemma WantedDistinctExactly(insts: seq<Instance>, wanted: seq<QuestionId>)
    requires wanted != [] && Pool(insts, wanted).Success?
    ensures DistinctIds(Pool(insts, wanted).value) <==> Distinct(wanted)
  {
    var pool := Pool(insts, wanted).value;
    forall i | 0 <= i < |wanted| ensures pool[i].id == wanted[i] {
      assert wanted[i] in wanted;
    }
  }
}
