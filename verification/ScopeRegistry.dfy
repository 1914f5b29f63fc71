/** The registry of active harness scopes, its history law, and the merge of overlapping scopes. */
module ScopeRegistry {
  import opened Common
  import opened Text
  import opened TagJson
  import opened Tags
  import opened TagToken

  datatype Scope = Scope(id: Text, tags: TagMap)

  /** Per client, its active scopes in the order they were entered. */
  type Table = map<Text, seq<Scope>>

  datatype ScopeError = MissingId | AlreadyActive | NotActive

  function Active(t: Table, client: Option<Text>): (r: seq<Scope>) {
    if client.Some? && client.value in t then t[client.value] else []
  }

  predicate HasId(scopes: seq<Scope>, id: Text) {
    exists s | s in scopes :: s.id == id
  }

  function Without(scopes: seq<Scope>, id: Text): (r: seq<Scope>) {
    if scopes == [] then []
    else (if scopes[0].id == id then [] else [scopes[0]]) + Without(scopes[1..], id)
  }

  function Entered(t: Table, client: Text, s: Scope): (r: Result<Table, ScopeError>) {
    if client == [] || s.id == [] then Failure(MissingId)
    else if HasId(Active(t, Some(client)), s.id) then Failure(AlreadyActive)
    else Success(t[client := Active(t, Some(client)) + [s]])
  }

  function Exited(t: Table, client: Text, id: Text): (r: Result<Table, ScopeError>) {
    var mine := Active(t, Some(client));
    if !HasId(mine, id) then Failure(NotActive)
    else if Without(mine, id) == [] then Success(t - {client})
    else Success(t[client := Without(mine, id)])
  }

  class Registry {
    var scopes: Table

    constructor ()
      ensures scopes == map[]
    {
      scopes := map[];
    }

    method Enter(client: Text, id: Text, tags: TagMap) returns (r: Result<Scope, ScopeError>)
      modifies this
      ensures match Entered(old(scopes), client, Scope(id, tags))
              case Failure(e) => r == Failure(e) && scopes == old(scopes)
              case Success(t) => r == Success(Scope(id, tags)) && scopes == t
    {
      if client == [] || id == [] {
        return Failure(MissingId);
      }
      var perClient := if client in scopes then scopes[client] else [];
      if HasId(perClient, id) {
        return Failure(AlreadyActive);
      }
      var scope := Scope(id, tags);
      scopes := scopes[client := perClient + [scope]];
      r := Success(scope);
    }

    method Exit(client: Text, id: Text) returns (r: Result<Scope, ScopeError>)
      modifies this
      ensures match Exited(old(scopes), client, id)
              case Failure(e) => r == Failure(e) && scopes == old(scopes)
              case Success(t) => scopes == t && r.Success? && r.value.id == id
                                 && r.value in Active(old(scopes), Some(client))
    {
      var perClient := if client in scopes then scopes[client] else [];
      if !HasId(perClient, id) {
        return Failure(NotActive);
      }
      var i := 0;
      while perClient[i].id != id
        invariant 0 <= i < |perClient|
        invariant exists k :: i <= k < |perClient| && perClient[k].id == id
        decreases |perClient| - i
      {
        i := i + 1;
      }
      r := Success(perClient[i]);
      var left := Without(perClient, id);
      if left == [] {
        scopes := scopes - {client};
      } else {
        scopes := scopes[client := left];
      }
    }

    method Resolve(client: Option<Text>) returns (r: Merged)
      ensures r == Merge(Active(scopes, client))
    {
      var active := if client.Some? && client.value in scopes then scopes[client.value] else [];
      if active == [] {
        return NO_SCOPE;
      }
      if |active| == 1 {
        SingleIsGeneral(active[0]);
        assert active == [active[0]];
        return Merged(active[0].tags, [active[0].id], Single, []);
      }
      r := MergeSeveral(active);
    }

    static method MergeSeveral(active: seq<Scope>) returns (r: Merged)
      requires |active| > 1
      ensures r == Merge(active)
    {
      hide Defines, Agrees, FirstValue, Disagreeing, AgreedOn, Values;
      NoFields(active);
      var merged: TagMap, ambiguous: seq<Field> := map[], [];
      var i := 0;
      while i < |FIELDS|
        invariant 0 <= i <= |FIELDS|
        invariant merged == AgreedOn(active, FIELDS[..i])
        invariant ambiguous == Disagreeing(active, FIELDS[..i])
      {
        var fld := FIELDS[i];
        var values := Values(active, fld);
        TextsCount(active, fld);
        assert FIELDS[..i + 1] == FIELDS[..i] + [fld];
        OneMoreField(active, FIELDS[..i], fld);
        if |values| == 1 {
          merged := merged[fld := FirstValue(active, fld)];
        } else if |values| > 1 {
          ambiguous := ambiguous + [fld];
        }
        i := i + 1;
      }
      assert FIELDS[..i] == FIELDS;
      r := Merged(merged, Ids(active), if ambiguous == [] then Agree else Ambiguous, ambiguous);
    }
  }

  // ---- histories ---------------------------------------------------------

  datatype Op = Enter(client: Text, scope: Scope) | Exit(client: Text, id: Text)

  function Apply(t: Table, op: Op): (r: Table) {
    var outcome := match op
      case Enter(client, scope) => Entered(t, client, scope)
      case Exit(client, id) => Exited(t, client, id);
    match outcome case Failure(_) => t case Success(t') => t'
  }

  function RunOps(ops: seq<Op>): (t: Table) {
    if ops == [] then map[] else Apply(RunOps(ops[..|ops| - 1]), ops[|ops| - 1])
  }

  predicate Opens(op: Op, client: Text, id: Text) {
    op.Enter? && op.client == client && op.scope.id == id && client != [] && id != []
  }

  predicate Closes(op: Op, client: Text, id: Text) {
    op == Exit(client, id)
  }

  /** Operation `k` opens (client, id), and nothing in `ops` closes it again. */
  predicate OpenAt(ops: seq<Op>, k: nat, client: Text, id: Text) {
    k < |ops| && Opens(ops[k], client, id) && forall e | k < e < |ops| :: !Closes(ops[e], client, id)
  }

  /** Operation `i` is an enter that took effect and has not been exited: it is the first to open
      its (client, id) since that was last closed. */
  predicate Live(ops: seq<Op>, i: nat)
    requires i < |ops|
  {
    && ops[i].Enter?
    && OpenAt(ops, i, ops[i].client, ops[i].scope.id)
    && forall k | 0 <= k < i :: !OpenAt(ops, k, ops[i].client, ops[i].scope.id)
  }

  /** The not yet exited enters of a client among the first `n` operations, in enter order. */
  function LiveScopes(ops: seq<Op>, n: nat, client: Text): (r: seq<Scope>)
    requires n <= |ops|
  {
    if n == 0 then [] else LiveScopes(ops, n - 1, client) + LiveScopeAt(ops, n - 1, client)
  }

  function LiveScopeAt(ops: seq<Op>, i: nat, client: Text): (r: seq<Scope>)
    requires i < |ops|
  {
    if Live(ops, i) && ops[i].client == client then [ops[i].scope] else []
  }

  /** When entering and exiting fail, after any run, and why. */
  lemma FailsExactly(ops: seq<Op>, client: Text, s: Scope, id: Text)
    ensures Entered(RunOps(ops), client, s) == Failure(MissingId) <==> client == [] || s.id == []
    ensures Entered(RunOps(ops), client, s) == Failure(AlreadyActive) <==>
              client != [] && s.id != [] && exists k: nat :: OpenAt(ops, k, client, s.id)
    ensures Exited(RunOps(ops), client, id) == Failure(NotActive) <==> !exists k: nat :: OpenAt(ops, k, client, id)
  {
    ActiveIsHistory(ops, client);
    LiveIds(ops, |ops|, client, s.id);
    LiveIds(ops, |ops|, client, id);
    hide OpenAt, RunOps, LiveScopes, HasId;
    assert forall k: nat, i | OpenAt(ops, k, client, i) :: k < |ops| by {
      forall k: nat, i | OpenAt(ops, k, client, i) ensures k < |ops| {
        OpenInRange(ops, k, client, i);
      }
    }
  }

  lemma OpenInRange(ops: seq<Op>, k: nat, client: Text, id: Text)
    requires OpenAt(ops, k, client, id)
    ensures k < |ops|
  {
  }

  lemma {:induction false} WithoutAppend(xs: seq<Scope>, ys: seq<Scope>, id: Text)
    ensures Without(xs + ys, id) == Without(xs, id) + Without(ys, id)
  {
    if xs == [] {
      assert xs + ys == ys;
    } else {
      assert (xs + ys)[1..] == xs[1..] + ys;
      WithoutAppend(xs[1..], ys, id);
    }
  }

  lemma {:induction false} WithoutAbsent(xs: seq<Scope>, id: Text)
    requires !HasId(xs, id)
    ensures Without(xs, id) == xs
  {
    if xs != [] {
      assert xs[0] in xs;
      assert forall s | s in xs[1..] :: s in xs;
      WithoutAbsent(xs[1..], id);
    }
  }

  lemma LiveAfter(ops: seq<Op>, op: Op, i: nat)
    requires i < |ops|
    ensures ops[i].Enter? ==>
              (Live(ops + [op], i) <==> Live(ops, i) && !Closes(op, ops[i].client, ops[i].scope.id))
    ensures !ops[i].Enter? ==> !Live(ops + [op], i) && !Live(ops, i)
  {
    hide OpenAt, Closes;
    var more := ops + [op];
    assert more[i] == ops[i];
    if ops[i].Enter? {
      var c, id := ops[i].client, ops[i].scope.id;
      forall k: nat | k <= i ensures OpenAt(more, k, c, id) <==> OpenAt(ops, k, c, id) && !Closes(op, c, id) {
        OpenAfter(ops, op, k, c, id);
      }
    }
  }

  lemma OpenAfter(ops: seq<Op>, op: Op, k: nat, client: Text, id: Text)
    requires k < |ops|
    ensures OpenAt(ops + [op], k, client, id) <==> OpenAt(ops, k, client, id) && !Closes(op, client, id)
  {
    var more := ops + [op];
    assert more[k] == ops[k] && more[|ops|] == op;
    if OpenAt(more, k, client, id) {
      forall e | k < e < |ops| ensures !Closes(ops[e], client, id) {
        assert more[e] == ops[e];
      }
    }
  }

  function Less(scopes: seq<Scope>, op: Op, client: Text): (r: seq<Scope>) {
    if op.Exit? && op.client == client then Without(scopes, op.id) else scopes
  }

  lemma LessAppend(xs: seq<Scope>, ys: seq<Scope>, op: Op, client: Text)
    ensures Less(xs + ys, op, client) == Less(xs, op, client) + Less(ys, op, client)
  {
    if op.Exit? {
      WithoutAppend(xs, ys, op.id);
    }
  }

  lemma LiveScopeAtAfter(ops: seq<Op>, op: Op, i: nat, client: Text)
    requires i < |ops|
    ensures LiveScopeAt(ops + [op], i, client) == Less(LiveScopeAt(ops, i, client), op, client)
  {
    hide OpenAt;
    assert (ops + [op])[i] == ops[i];
    LiveAfter(ops, op, i);
    if op.Exit? && ops[i].Enter? {
      WithoutOne(ops[i].scope, op.id);
    }
  }

  lemma WithoutOne(s: Scope, id: Text)
    ensures Without([s], id) == if s.id == id then [] else [s]
  {
    assert [s][1..] == [];
  }

  /** One more operation only removes, from the live scopes so far, the one it closes. */
  lemma {:induction false} LiveScopesAfter(ops: seq<Op>, op: Op, n: nat, client: Text)
    requires n <= |ops|
    ensures LiveScopes(ops + [op], n, client) == Less(LiveScopes(ops, n, client), op, client)
    decreases n
  {
    hide LiveScopeAt;
    if n > 0 {
      LiveScopesAfter(ops, op, n - 1, client);
      LiveScopeAtAfter(ops, op, n - 1, client);
      LessAppend(LiveScopes(ops, n - 1, client), LiveScopeAt(ops, n - 1, client), op, client);
    }
  }

  /** An id is among the live scopes of a client exactly when some operation opened it for good. */
  lemma {:induction false} LiveIds(ops: seq<Op>, n: nat, client: Text, id: Text)
    requires n <= |ops|
    ensures HasId(LiveScopes(ops, n, client), id) <==> exists k | 0 <= k < n :: OpenAt(ops, k, client, id)
    decreases n
  {
    if n > 0 {
      LiveIds(ops, n - 1, client, id);
      var shorter, longer := LiveScopes(ops, n - 1, client), LiveScopes(ops, n, client);
      var last := ops[n - 1];
      assert forall s | s in longer :: s in shorter || (Live(ops, n - 1) && last.client == client && s == last.scope);
      assert forall s | s in shorter :: s in longer;
      if Live(ops, n - 1) && last.client == client {
        assert last.scope in longer;
      }
      if HasId(longer, id) && !HasId(shorter, id) {
        assert OpenAt(ops, n - 1, client, id);
      }
      if OpenAt(ops, n - 1, client, id) && !(exists k | 0 <= k < n - 1 :: OpenAt(ops, k, client, id)) {
        assert Live(ops, n - 1);
      }
    }
  }

  /** After any run of enters and exits, failed ones included, the active scopes of every client are
      exactly its not yet exited enters in enter order, and no client maps to an empty table. */
  lemma {:induction false} ActiveIsHistory(ops: seq<Op>, client: Text)
    ensures Active(RunOps(ops), Some(client)) == LiveScopes(ops, |ops|, client)
    ensures client in RunOps(ops) ==> RunOps(ops)[client] != []
    decreases |ops|
  {
    if ops != [] {
      var before, op := ops[..|ops| - 1], ops[|ops| - 1];
      assert ops == before + [op];
      ActiveIsHistory(before, client);
      assert LiveScopes(ops, |ops|, client) == LiveScopes(ops, |before|, client) + LiveScopeAt(ops, |before|, client);
      assert RunOps(ops) == Apply(RunOps(before), op);
      hide OpenAt, Apply, LiveScopeAt, RunOps, LiveScopes, Live;
      LastScope(before, op, client);
      LiveScopesAfter(before, op, |before|, client);
      if op.client != client {
        ApplyElsewhere(RunOps(before), op, client);
      } else if op.Exit? {
        ExitTakesEffect(RunOps(before), op);
      } else {
        LiveIds(before, |before|, client, op.scope.id);
        EnterIsLive(before, op);
        EnterTakesEffect(RunOps(before), op);
      }
    }
  }

  lemma ApplyElsewhere(t: Table, op: Op, client: Text)
    requires op.client != client
    ensures Active(Apply(t, op), Some(client)) == Active(t, Some(client))
    ensures client in Apply(t, op) <==> client in t
  {
  }

  lemma ExitTakesEffect(t: Table, op: Op)
    requires op.Exit? && (op.client in t ==> t[op.client] != [])
    ensures Active(Apply(t, op), Some(op.client)) == Without(Active(t, Some(op.client)), op.id)
    ensures op.client in Apply(t, op) ==> Apply(t, op)[op.client] != []
  {
    var mine := Active(t, Some(op.client));
    if !HasId(mine, op.id) {
      WithoutAbsent(mine, op.id);
    }
  }

  lemma EnterTakesEffect(t: Table, op: Op)
    requires op.Enter? && (op.client in t ==> t[op.client] != [])
    ensures Active(Apply(t, op), Some(op.client))
            == Active(t, Some(op.client))
               + (if op.client != [] && op.scope.id != [] && !HasId(Active(t, Some(op.client)), op.scope.id)
                  then [op.scope] else [])
    ensures op.client in Apply(t, op) ==> Apply(t, op)[op.client] != []
  {
  }

  lemma LastScope(before: seq<Op>, op: Op, client: Text)
    ensures LiveScopeAt(before + [op], |before|, client)
            == if op.Enter? && Live(before + [op], |before|) && op.client == client then [op.scope] else []
  {
  }

  lemma EnterIsLive(before: seq<Op>, op: Op)
    requires op.Enter?
    ensures Live(before + [op], |before|) <==>
            op.client != [] && op.scope.id != []
            && !exists k | 0 <= k < |before| :: OpenAt(before, k, op.client, op.scope.id)
  {
    var ops, c, id := before + [op], op.client, op.scope.id;
    forall k | 0 <= k < |before| ensures OpenAt(ops, k, c, id) <==> OpenAt(before, k, c, id) {
      OpenAfter(before, op, k, c, id);
    }
  }

  function OpsOf(ops: seq<Op>, client: Text): (r: seq<Op>) {
    if ops == [] then []
    else
      var last := ops[|ops| - 1];
      OpsOf(ops[..|ops| - 1], client) + (if last.client == client then [last] else [])
  }

  /** Scopes of other clients, whatever they do, leave a client's active scopes alone. */
  lemma {:induction false} OtherClientsIrrelevant(ops: seq<Op>, client: Text)
    ensures Active(RunOps(ops), Some(client)) == Active(RunOps(OpsOf(ops, client)), Some(client))
    decreases |ops|
  {
    if ops != [] {
      var before, op := ops[..|ops| - 1], ops[|ops| - 1];
      OtherClientsIrrelevant(before, client);
      var mine := OpsOf(before, client);
      if op.client == client {
        assert OpsOf(ops, client) == mine + [op] && (mine + [op])[..|mine|] == mine;
        SameEffect(RunOps(before), RunOps(mine), op);
      } else {
        assert OpsOf(ops, client) == mine;
        ApplyElsewhere(RunOps(before), op, client);
      }
    }
  }

  lemma SameEffect(t: Table, u: Table, op: Op)
    requires Active(t, Some(op.client)) == Active(u, Some(op.client))
    ensures Active(Apply(t, op), Some(op.client)) == Active(Apply(u, op), Some(op.client))
  {
  }

  predicate NormalTable(t: Table) {
    forall c | c in t :: forall s | s in t[c] :: IsNormal(s.tags)
  }

  /** Entering only validated tags keeps every active scope validated. */
  lemma {:induction false} TableStaysNormal(ops: seq<Op>)
    requires forall op | op in ops :: op.Enter? ==> IsNormal(op.scope.tags)
    ensures NormalTable(RunOps(ops))
    decreases |ops|
  {
    if ops != [] {
      var before, op := ops[..|ops| - 1], ops[|ops| - 1];
      TableStaysNormal(before);
      assert op in ops;
      if op.Exit? && op.client in RunOps(before) {
        WithoutMembers(RunOps(before)[op.client], op.id);
      }
    }
  }

  lemma {:induction false} WithoutMembers(xs: seq<Scope>, id: Text)
    ensures forall s | s in Without(xs, id) :: s in xs
  {
    if xs != [] {
      WithoutMembers(xs[1..], id);
    }
  }

  // ---- merging -----------------------------------------------------------

  datatype ScopeState = NoScope | Single | Agree | Ambiguous

  datatype Merged = Merged(tags: TagMap, ids: seq<Text>, state: ScopeState, ambiguous: seq<Field>)

  const NO_SCOPE := Merged(map[], [], NoScope, [])

  predicate Defines(scopes: seq<Scope>, f: Field) {
    exists s | s in scopes :: f in s.tags
  }

  /** All scopes that define the field print the same JSON for it. */
  predicate Agrees(scopes: seq<Scope>, f: Field) {
    forall s, s' | s in scopes && s' in scopes && f in s.tags && f in s'.tags :: Print(s.tags[f]) == Print(s'.tags[f])
  }

  function FirstValue(scopes: seq<Scope>, f: Field): (v: Scalar)
    requires Defines(scopes, f)
    ensures exists s | s in scopes :: f in s.tags && s.tags[f] == v
  {
    assert scopes != [] && scopes[0] in scopes;
    if f in scopes[0].tags then scopes[0].tags[f]
    else
      assert Defines(scopes[1..], f);
      FirstValue(scopes[1..], f)
  }

  function Ids(scopes: seq<Scope>): (r: seq<Text>) {
    seq(|scopes|, i requires 0 <= i < |scopes| => scopes[i].id)
  }

  function Values(scopes: seq<Scope>, f: Field): (r: set<Text>) {
    set s | s in scopes && f in s.tags :: Print(s.tags[f])
  }

  function AgreedOn(scopes: seq<Scope>, fields: seq<Field>): (r: TagMap) {
    map f | f in fields && Defines(scopes, f) && Agrees(scopes, f) :: FirstValue(scopes, f)
  }

  function Disagreeing(scopes: seq<Scope>, fields: seq<Field>): (r: seq<Field>) {
    if fields == [] then []
    else (if Agrees(scopes, fields[0]) then [] else [fields[0]]) + Disagreeing(scopes, fields[1..])
  }

  function MergedTags(scopes: seq<Scope>): (r: TagMap) {
    AgreedOn(scopes, FIELDS)
  }

  function AmbiguousFields(scopes: seq<Scope>): (r: seq<Field>) {
    Disagreeing(scopes, FIELDS)
  }

  lemma NoFields(scopes: seq<Scope>)
    ensures Disagreeing(scopes, []) == [] && AgreedOn(scopes, []) == map[]
  {
  }

  lemma {:induction false} DisagreeingSnoc(scopes: seq<Scope>, fields: seq<Field>, f: Field)
    ensures Disagreeing(scopes, fields + [f])
            == Disagreeing(scopes, fields) + (if Agrees(scopes, f) then [] else [f])
  {
    hide Agrees;
    if fields == [] {
      assert [f][1..] == [] && [] + [f] == [f];
    } else {
      var more := if Agrees(scopes, f) then [] else [f];
      var head := if Agrees(scopes, fields[0]) then [] else [fields[0]];
      assert (fields + [f])[1..] == fields[1..] + [f] && (fields + [f])[0] == fields[0];
      DisagreeingSnoc(scopes, fields[1..], f);
      assert Disagreeing(scopes, fields + [f]) == head + (Disagreeing(scopes, fields[1..]) + more);
      assert Disagreeing(scopes, fields) == head + Disagreeing(scopes, fields[1..]);
      hide Disagreeing;
      Assoc(head, Disagreeing(scopes, fields[1..]), more);
    }
  }

  lemma AgreedOnSnoc(scopes: seq<Scope>, fields: seq<Field>, f: Field)
    ensures AgreedOn(scopes, fields + [f])
            == if Defines(scopes, f) && Agrees(scopes, f) then AgreedOn(scopes, fields)[f := FirstValue(scopes, f)]
               else AgreedOn(scopes, fields)
  {
    hide Defines, Agrees, FirstValue, Disagreeing;
    assert forall g :: g in fields + [f] <==> g in fields || g == f;
  }

  lemma OneMoreField(scopes: seq<Scope>, fields: seq<Field>, f: Field)
    ensures Disagreeing(scopes, fields + [f])
            == Disagreeing(scopes, fields) + (if Agrees(scopes, f) then [] else [f])
    ensures AgreedOn(scopes, fields + [f])
            == if Defines(scopes, f) && Agrees(scopes, f) then AgreedOn(scopes, fields)[f := FirstValue(scopes, f)]
               else AgreedOn(scopes, fields)
  {
    hide Defines, Agrees, FirstValue;
    DisagreeingSnoc(scopes, fields, f);
    AgreedOnSnoc(scopes, fields, f);
  }

  function Merge(scopes: seq<Scope>): (r: Merged) {
    if scopes == [] then NO_SCOPE
    else if |scopes| == 1 then Merged(MergedTags(scopes), Ids(scopes), Single, [])
    else
      var ambiguous := AmbiguousFields(scopes);
      Merged(MergedTags(scopes), Ids(scopes), if ambiguous == [] then Agree else Ambiguous, ambiguous)
  }

  lemma AloneDefines(s: Scope, f: Field)
    ensures Agrees([s], f)
    ensures Defines([s], f) <==> f in s.tags
    ensures f in s.tags ==> FirstValue([s], f) == s.tags[f]
  {
    assert s in [s];
  }

  /** The shortcut for a single scope gives what the general merge would give. */
  lemma SingleIsGeneral(s: Scope)
    ensures MergedTags([s]) == s.tags && AmbiguousFields([s]) == [] && Ids([s]) == [s.id]
  {
    hide Defines, Agrees, FirstValue;
    AllFieldsListed();
    forall f
      ensures Agrees([s], f) && (Defines([s], f) <==> f in s.tags) && (f in s.tags ==> FirstValue([s], f) == s.tags[f])
    {
      AloneDefines(s, f);
    }
    NoneAmbiguous([s], FIELDS);
  }

  lemma {:induction false} NoneAmbiguous(scopes: seq<Scope>, fields: seq<Field>)
    requires forall f :: Agrees(scopes, f)
    ensures Disagreeing(scopes, fields) == []
  {
    if fields != [] {
      NoneAmbiguous(scopes, fields[1..]);
    }
  }

  lemma NoTexts(scopes: seq<Scope>, f: Field)
    requires !Defines(scopes, f)
    ensures Values(scopes, f) == {} && Agrees(scopes, f)
  {
  }

  lemma OneText(scopes: seq<Scope>, f: Field)
    requires Defines(scopes, f) && Agrees(scopes, f)
    ensures |Values(scopes, f)| == 1
  {
    hide Print;
    var s :| s in scopes && f in s.tags;
    assert Values(scopes, f) == {Print(s.tags[f])};
  }

  lemma SeveralTexts(scopes: seq<Scope>, f: Field)
    requires !Agrees(scopes, f)
    ensures |Values(scopes, f)| > 1
  {
    hide Print;
    var s, s' :| s in scopes && s' in scopes && f in s.tags && f in s'.tags && Print(s.tags[f]) != Print(s'.tags[f]);
    var a, b := Print(s.tags[f]), Print(s'.tags[f]);
    assert a in Values(scopes, f) && b in Values(scopes, f);
    SubsetSize({a, b}, Values(scopes, f));
  }

  /** Counting distinct JSON texts decides definition, agreement and ambiguity. */
  lemma TextsCount(scopes: seq<Scope>, f: Field)
    ensures |Values(scopes, f)| == 0 <==> !Defines(scopes, f)
    ensures |Values(scopes, f)| == 1 <==> Defines(scopes, f) && Agrees(scopes, f)
    ensures |Values(scopes, f)| > 1 <==> !Agrees(scopes, f)
  {
    hide Values, Defines, Agrees;
    if !Defines(scopes, f) {
      NoTexts(scopes, f);
    } else if Agrees(scopes, f) {
      OneText(scopes, f);
    } else {
      SeveralTexts(scopes, f);
    }
  }

  /** A field is merged exactly when it is defined and all scopes defining it agree, ambiguous exactly
      when two of them differ; agreement is on JSON text, that is up to joined surrogate pairs. */
  lemma MergeMeaning(scopes: seq<Scope>, f: Field)
    ensures f in Merge(scopes).tags <==> Defines(scopes, f) && Agrees(scopes, f)
    ensures f in Merge(scopes).ambiguous <==> !Agrees(scopes, f)
    ensures f in Merge(scopes).tags ==>
              forall s | s in scopes && f in s.tags :: CanonScalar(s.tags[f]) == CanonScalar(Merge(scopes).tags[f])
    ensures Merge(scopes).state.Ambiguous? <==> Merge(scopes).ambiguous != []
  {
    hide Print, FirstValue, Agrees, Defines, CanonScalar;
    MergeFields(scopes, f);
    if f in Merge(scopes).tags {
      assert Agrees(scopes, f) && Defines(scopes, f);
      AgreeMeaning(scopes, f);
    }
  }

  lemma AgreeMeaning(scopes: seq<Scope>, f: Field)
    requires Defines(scopes, f) && Agrees(scopes, f)
    ensures forall s | s in scopes && f in s.tags :: CanonScalar(s.tags[f]) == CanonScalar(FirstValue(scopes, f))
  {
    hide Print, FirstValue, CanonScalar;
    var v := FirstValue(scopes, f);
    forall s | s in scopes && f in s.tags ensures CanonScalar(s.tags[f]) == CanonScalar(v) {
      PrintDecidesExactly(s.tags[f], v);
    }
  }

  lemma MergeFields(scopes: seq<Scope>, f: Field)
    ensures f in Merge(scopes).tags <==> Defines(scopes, f) && Agrees(scopes, f)
    ensures f in Merge(scopes).tags ==> Merge(scopes).tags[f] == FirstValue(scopes, f)
    ensures f in Merge(scopes).ambiguous <==> !Agrees(scopes, f)
    ensures Merge(scopes).state.Ambiguous? <==> Merge(scopes).ambiguous != []
  {
    hide FirstValue, Disagreeing;
    AllFieldsListed();
    DisagreeingMembers(scopes, FIELDS, f);
    if |scopes| == 1 {
      AloneDefines(scopes[0], f);
      assert scopes == [scopes[0]];
    } else if scopes == [] {
      assert Agrees(scopes, f) && !Defines(scopes, f);
    }
  }

  lemma {:induction false} DisagreeingMembers(scopes: seq<Scope>, fields: seq<Field>, f: Field)
    ensures f in Disagreeing(scopes, fields) <==> f in fields && !Agrees(scopes, f)
  {
    if fields != [] {
      DisagreeingMembers(scopes, fields[1..], f);
    }
  }

  /** The rest of a merge: the ids in the order of the scopes, the value of the first scope that has the
      field, the ambiguous fields once each in the order of the fields, and the state. */
  lemma MergeShape(scopes: seq<Scope>) returns (at: seq<nat>)
    ensures var m := Merge(scopes);
            && |m.ids| == |scopes| && (forall i | 0 <= i < |scopes| :: m.ids[i] == scopes[i].id)
            && (forall f, i | 0 <= i < |scopes| && f in m.tags && f in scopes[i].tags && (forall j | 0 <= j < i :: f !in scopes[j].tags) ::
                  m.tags[f] == scopes[i].tags[f])
            && Selects([System, Configuration, Seed, SessionId, Operation, RunId, ClientId], m.ambiguous, at)
            && m.state == (if scopes == [] then NoScope else if |scopes| == 1 then Single
                           else if m.ambiguous == [] then Agree else Ambiguous)
  {
    var m := Merge(scopes);
    at := [];
    if |scopes| > 1 {
      at := DisagreeingAt(scopes, FIELDS);
    }
    hide Agrees, Disagreeing;
    forall f, i | 0 <= i < |scopes| && f in m.tags && f in scopes[i].tags && (forall j | 0 <= j < i :: f !in scopes[j].tags)
      ensures m.tags[f] == scopes[i].tags[f]
    {
      MergedIsFirst(scopes, f);
      FirstIs(scopes, f, i);
    }
  }

  lemma {:induction false} FirstIs(scopes: seq<Scope>, f: Field, i: nat)
    requires i < |scopes| && f in scopes[i].tags && forall j | 0 <= j < i :: f !in scopes[j].tags
    ensures Defines(scopes, f) && FirstValue(scopes, f) == scopes[i].tags[f]
  {
    assert scopes[i] in scopes;
    if i > 0 {
      assert forall j | 0 <= j < i - 1 :: scopes[1..][j] == scopes[j + 1];
      FirstIs(scopes[1..], f, i - 1);
      assert f !in scopes[0].tags;
    }
  }

  lemma {:induction false} DisagreeingAt(scopes: seq<Scope>, fields: seq<Field>) returns (at: seq<nat>)
    ensures Selects(fields, Disagreeing(scopes, fields), at)
    decreases |fields|
  {
    hide Agrees;
    if fields == [] {
      at := [];
    } else {
      var init, last := fields[..|fields| - 1], fields[|fields| - 1];
      at := DisagreeingAt(scopes, init);
      assert fields == init + [last];
      DisagreeingSnoc(scopes, init, last);
      SelectsSnoc(init, last, Disagreeing(scopes, init), at);
      if !Agrees(scopes, last) {
        at := at + [|init|];
      } else {
        assert Disagreeing(scopes, init) + [] == Disagreeing(scopes, init);
      }
    }
  }

  /** Two scalars print the same JSON exactly when they are equal up to joined surrogate pairs. */
  lemma PrintDecidesExactly(v: Scalar, w: Scalar)
    ensures Print(v) == Print(w) <==> CanonScalar(v) == CanonScalar(w)
  {
    var host := Host(_ => NotANumber, _ => None);
    ReadValueOf(host, v, []);
    ReadValueOf(host, w, []);
    assert Print(v) + [] == Print(v) && Print(w) + [] == Print(w);
    if v.Str? {
      EscapeAllOfCanon(v.s);
    }
    if w.Str? {
      EscapeAllOfCanon(w.s);
    }
  }

  /** An ambiguous field stays ambiguous however many scopes are added. */
  lemma AmbiguityPersists(scopes: seq<Scope>, more: seq<Scope>, f: Field)
    requires f in Merge(scopes).ambiguous
    ensures f in Merge(scopes + more).ambiguous && f !in Merge(scopes + more).tags
  {
    MergeMeaning(scopes, f);
    MergeMeaning(scopes + more, f);
  }

  /** For every order of the scopes the merge has the same state, ambiguous list and merged fields,
      and the merged values are the same up to joined surrogate pairs. */
  lemma OrderIrrelevantUpToCanon(a: seq<Scope>, b: seq<Scope>)
    requires multiset(a) == multiset(b)
    ensures Merge(a).state == Merge(b).state && Merge(a).ambiguous == Merge(b).ambiguous
    ensures CanonTags(Merge(a).tags) == CanonTags(Merge(b).tags)
  {
    hide Print, FirstValue, Agrees, Defines, CanonScalar, Disagreeing, AgreedOn;
    SameMembers(a, b);
    forall f ensures Defines(a, f) == Defines(b, f) && Agrees(a, f) == Agrees(b, f) {
      SameVerdicts(a, b, f);
    }
    SameFilter(a, b, FIELDS);
    forall f
      ensures f in Merge(a).tags <==> f in Merge(b).tags
      ensures f in Merge(a).tags ==> CanonScalar(Merge(a).tags[f]) == CanonScalar(Merge(b).tags[f])
    {
      SameMergedValue(a, b, f);
    }
  }

  lemma SameMergedValue(a: seq<Scope>, b: seq<Scope>, f: Field)
    requires forall s :: s in a <==> s in b
    ensures f in Merge(a).tags <==> f in Merge(b).tags
    ensures f in Merge(a).tags ==> CanonScalar(Merge(a).tags[f]) == CanonScalar(Merge(b).tags[f])
  {
    hide Print, FirstValue, Merge, CanonScalar;
    MergeMeaning(a, f);
    MergeMeaning(b, f);
    SameVerdicts(a, b, f);
    if Defines(a, f) {
      var s :| s in a && f in s.tags;
    }
  }

  lemma SameMembers(a: seq<Scope>, b: seq<Scope>)
    requires multiset(a) == multiset(b)
    ensures |a| == |b| && forall s :: s in a <==> s in b
  {
    assert |multiset(a)| == |a| && |multiset(b)| == |b|;
    forall s ensures s in a <==> s in b {
      assert s in a <==> s in multiset(a);
      assert s in b <==> s in multiset(b);
    }
  }

  lemma SameVerdicts(a: seq<Scope>, b: seq<Scope>, f: Field)
    requires forall s :: s in a <==> s in b
    ensures Defines(a, f) == Defines(b, f) && Agrees(a, f) == Agrees(b, f)
  {
  }

  lemma {:induction false} SameFilter(a: seq<Scope>, b: seq<Scope>, fields: seq<Field>)
    requires forall f :: Agrees(a, f) == Agrees(b, f)
    ensures Disagreeing(a, fields) == Disagreeing(b, fields)
  {
    if fields != [] {
      SameFilter(a, b, fields[1..]);
    }
  }

  /** Some field on which the scopes agree is held as two different strings for the same text. */
  predicate HidesDifference(scopes: seq<Scope>) {
    exists f, s, s' | s in scopes && s' in scopes && f in s.tags && f in s'.tags ::
      Agrees(scopes, f) && s.tags[f] != s'.tags[f]
  }

  function Promote(scopes: seq<Scope>, i: nat): (r: seq<Scope>)
    requires i < |scopes|
  {
    [scopes[i]] + scopes[..i] + scopes[i + 1..]
  }

  /** The merged values themselves are order-independent exactly when no agreeing field hides a
      difference, in particular whenever no scope holds a split surrogate pair. */
  lemma OrderIrrelevantExactly(scopes: seq<Scope>)
    ensures (forall other | multiset(other) == multiset(scopes) :: Merge(other).tags == Merge(scopes).tags)
            <==> !HidesDifference(scopes)
  {
    if !HidesDifference(scopes) {
      forall other | multiset(other) == multiset(scopes) ensures Merge(other).tags == Merge(scopes).tags {
        NothingHidden(other, scopes);
      }
    } else {
      var f, s, s' :| s in scopes && s' in scopes && f in s.tags && f in s'.tags && Agrees(scopes, f) && s.tags[f] != s'.tags[f];
      SomethingHidden(scopes, f, s, s');
    }
  }

  lemma SomethingHidden(scopes: seq<Scope>, f: Field, s: Scope, s': Scope)
    requires s in scopes && s' in scopes && f in s.tags && f in s'.tags && Agrees(scopes, f)
    requires s.tags[f] != s'.tags[f]
    ensures exists other :: multiset(other) == multiset(scopes) && Merge(other).tags != Merge(scopes).tags
  {
    hide Merge, Agrees;
    var i :| 0 <= i < |scopes| && scopes[i] == s;
    var j :| 0 <= j < |scopes| && scopes[j] == s';
    PromotedWins(scopes, i, f);
    PromotedWins(scopes, j, f);
  }

  lemma NothingHidden(other: seq<Scope>, scopes: seq<Scope>)
    requires !HidesDifference(scopes) && multiset(other) == multiset(scopes)
    ensures Merge(other).tags == Merge(scopes).tags
  {
    hide Merge, Agrees, Defines, FirstValue;
    SameMembers(other, scopes);
    forall f
      ensures f in Merge(other).tags <==> f in Merge(scopes).tags
      ensures f in Merge(scopes).tags ==> Merge(other).tags[f] == Merge(scopes).tags[f]
    {
      SameVerdicts(other, scopes, f);
      MergeFields(other, f);
      MergeFields(scopes, f);
      if f in Merge(scopes).tags {
        var v, w := FirstValue(other, f), FirstValue(scopes, f);
        var s :| s in other && f in s.tags && s.tags[f] == v;
        var s' :| s' in scopes && f in s'.tags && s'.tags[f] == w;
      }
    }
  }

  lemma MergedIsFirst(scopes: seq<Scope>, f: Field)
    requires f in Merge(scopes).tags
    ensures Defines(scopes, f) && Merge(scopes).tags[f] == FirstValue(scopes, f)
  {
    MergeFields(scopes, f);
  }

  lemma PromotedWins(scopes: seq<Scope>, i: nat, f: Field)
    requires i < |scopes| && f in scopes[i].tags && Agrees(scopes, f)
    ensures multiset(Promote(scopes, i)) == multiset(scopes)
    ensures f in Merge(Promote(scopes, i)).tags && Merge(Promote(scopes, i)).tags[f] == scopes[i].tags[f]
  {
    var p := Promote(scopes, i);
    assert scopes == scopes[..i] + [scopes[i]] + scopes[i + 1..];
    SameMembers(p, scopes);
    SameVerdicts(p, scopes, f);
    assert p[0] == scopes[i] && p[0] in p;
    MergeMeaning(p, f);
    MergedIsFirst(p, f);
  }

  lemma FirstOfTwo(s: Scope, s': Scope, f: Field)
    requires f in s.tags && f in s'.tags && Print(s.tags[f]) == Print(s'.tags[f])
    ensures f in Merge([s, s']).tags && Merge([s, s']).tags[f] == s.tags[f]
  {
    assert [s, s'][0] in [s, s'];
    MergeFields([s, s'], f);
    hide Merge, Print;
  }

  /** Two scopes with the same character, once as two surrogates: they agree, and the order decides. */
  lemma OrderCanMatter()
    ensures var s, s' := Scope([49], map[Configuration := Str([0xD83D, 0xDE00])]), Scope([50], map[Configuration := Str([0x1F600])]);
            && Configuration in Merge([s, s']).tags && Configuration in Merge([s', s]).tags
            && Merge([s, s']).tags[Configuration] != Merge([s', s]).tags[Configuration]
  {
    hide *;
    SamePrinted();
    var s, s' := Scope([49], map[Configuration := Str([0xD83D, 0xDE00])]), Scope([50], map[Configuration := Str([0x1F600])]);
    FirstOfTwo(s, s', Configuration);
    FirstOfTwo(s', s, Configuration);
    assert |[0xD83D, 0xDE00]| != |[0x1F600]|;
  }

  lemma SamePrinted()
    ensures Print(Str([0xD83D, 0xDE00])) == Print(Str([0x1F600]))
  {
    var pair, one: Text := [0xD83D, 0xDE00], [0x1F600];
    PrintDecidesExactly(Str(pair), Str(one));
    hide Print;
    assert IsPair(pair, 0) && Combine(pair[0], pair[1]) == 0x1F600;
    assert pair[2..] == [] && Canon(pair) == one;
  }

  lemma NoSplitHidesNothing(scopes: seq<Scope>)
    requires forall s | s in scopes :: !HasSplitTag(s.tags)
    ensures !HidesDifference(scopes)
  {
    forall f, s, s' | s in scopes && s' in scopes && f in s.tags && f in s'.tags && Agrees(scopes, f)
      ensures s.tags[f] == s'.tags[f]
    {
      CanonTagsFixesExactly(s.tags);
      CanonTagsFixesExactly(s'.tags);
      PrintDecidesExactly(s.tags[f], s'.tags[f]);
      assert CanonTags(s.tags)[f] == CanonScalar(s.tags[f]);
      assert CanonTags(s'.tags)[f] == CanonScalar(s'.tags[f]);
    }
  }

  lemma MergeStaysNormal(scopes: seq<Scope>)
    requires forall s | s in scopes :: IsNormal(s.tags)
    ensures IsNormal(Merge(scopes).tags)
  {
    forall f | f in Merge(scopes).tags ensures IsNormalValue(f, Merge(scopes).tags[f]) {
      MergedIsFirst(scopes, f);
    }
  }
}
