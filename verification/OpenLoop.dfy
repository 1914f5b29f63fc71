/** The open-loop load scheduler: concurrent requests, a clock and a FIFO semaphore. */
module OpenLoop {
  import opened Common

  datatype RequestEvent = RequestEvent(
    requestId: nat,
    scheduled: real, dispatched: real, completed: real,
    queueDelayMs: real, serviceMs: real, endToEndMs: real,
    success: bool)

  /** A request sleeps until its time, waits at the semaphore, has been given a slot, operates, ends. */
  datatype Phase = Sleeping | Waiting | Granted | Operating(dispatched: real) | Ended(event: RequestEvent)

  datatype State = State(
    limit: nat, origin: real, offsets: seq<real>,
    now: real, phases: seq<Phase>,
    waiters: seq<nat>,   // semaphore queue, head first
    slots: set<nat>)     // requests holding a slot

  datatype Action = Tick(to: real) | Wake(i: nat) | Dispatch(i: nat) | Finish(i: nat, success: bool)

  function Scheduled(s: State, i: nat): (t: real)
    requires i < |s.offsets|
  {
    s.origin + s.offsets[i]
  }

  function Start(limit: nat, origin: real, offsets: seq<real>): (s: State) {
    State(limit, origin, offsets, origin, seq(|offsets|, _ => Sleeping), [], {})
  }

  function Event(i: nat, scheduled: real, dispatched: real, done: real, success: bool): (e: RequestEvent) {
    RequestEvent(i, scheduled, dispatched, done,
                 (dispatched - scheduled) * 1000.0, (done - dispatched) * 1000.0, (done - scheduled) * 1000.0, success)
  }

  predicate Enabled(s: State, a: Action) {
    match a
    case Tick(to) => to >= s.now
    case Wake(i) => i < |s.phases| == |s.offsets| && s.phases[i].Sleeping? && s.now >= Scheduled(s, i)
    case Dispatch(i) => i < |s.phases| && s.phases[i].Granted?
    case Finish(i, _) => i < |s.phases| == |s.offsets| && s.phases[i].Operating?
  }

  /** A slot that becomes free goes at once to the head of the queue, whether or not the operation
      that held it failed. */
  function Released(s: State, i: nat): (r: State)
    requires forall k | 0 <= k < |s.waiters| :: s.waiters[k] < |s.phases|
  {
    if s.waiters == [] then s.(slots := s.slots - {i})
    else
      var head := s.waiters[0];
      s.(slots := s.slots - {i} + {head}, waiters := s.waiters[1..], phases := s.phases[head := Granted])
  }

  predicate QueueInRange(s: State) {
    |s.phases| == |s.offsets| && forall k | 0 <= k < |s.waiters| :: s.waiters[k] < |s.phases|
  }

  /** One step of any request; an action that is not enabled does nothing. */
  function Next(s: State, a: Action): (r: State)
    requires QueueInRange(s)
  {
    if !Enabled(s, a) then s
    else match a
      case Tick(to) => s.(now := to)
      case Wake(i) =>
        if |s.slots| < s.limit && s.waiters == [] then s.(phases := s.phases[i := Granted], slots := s.slots + {i})
        else s.(phases := s.phases[i := Waiting], waiters := s.waiters + [i])
      case Dispatch(i) => s.(phases := s.phases[i := Operating(s.now)])
      case Finish(i, success) =>
        var e := Event(i, Scheduled(s, i), s.phases[i].dispatched, s.now, success);
        Released(s.(phases := s.phases[i := Ended(e)]), i)
  }

  // ---- safety ------------------------------------------------------------

  predicate Holds(p: Phase) {
    p.Granted? || p.Operating?
  }

  ghost predicate EventOk(s: State, i: nat, e: RequestEvent)
    requires i < |s.offsets|
  {
    && e.requestId == i && e.scheduled == Scheduled(s, i)
    && e.scheduled <= e.dispatched <= e.completed <= s.now
    && e.queueDelayMs == (e.dispatched - e.scheduled) * 1000.0
    && e.serviceMs == (e.completed - e.dispatched) * 1000.0
    && e.endToEndMs == (e.completed - e.scheduled) * 1000.0
  }

  ghost predicate PhaseOk(s: State, i: nat)
    requires i < |s.phases| == |s.offsets|
  {
    && (!s.phases[i].Sleeping? ==> Scheduled(s, i) <= s.now)
    && (s.phases[i].Operating? ==> Scheduled(s, i) <= s.phases[i].dispatched <= s.now)
    && (s.phases[i].Ended? ==> EventOk(s, i, s.phases[i].event))
  }

  ghost predicate Inv(s: State) {
    && QueueInRange(s)
    && Distinct(s.waiters)
    && (forall k | 0 <= k < |s.waiters| :: s.phases[s.waiters[k]].Waiting?)
    && (forall i | 0 <= i < |s.phases| && s.phases[i].Waiting? :: i in s.waiters)
    && (forall i | i in s.slots :: i < |s.phases| && Holds(s.phases[i]))
    && (forall i | 0 <= i < |s.phases| && Holds(s.phases[i]) :: i in s.slots)
    && |s.slots| <= s.limit
    && (s.waiters != [] ==> |s.slots| == s.limit)
    && (forall i | 0 <= i < |s.phases| :: PhaseOk(s, i))
  }

  lemma StartInv(limit: nat, origin: real, offsets: seq<real>)
    ensures Inv(Start(limit, origin, offsets))
  {
  }

  lemma EventLaw(s: State, i: nat, dispatched: real, success: bool)
    requires i < |s.offsets| && Scheduled(s, i) <= dispatched <= s.now
    ensures EventOk(s, i, Event(i, Scheduled(s, i), dispatched, s.now, success))
  {
  }

  lemma {:induction false} WakeInv(s: State, i: nat)
    requires Inv(s) && Enabled(s, Wake(i))
    ensures Inv(Next(s, Wake(i)))
  {
    var s' := Next(s, Wake(i));
    assert i !in s.slots && i !in s.waiters;
    forall k | 0 <= k < |s'.phases| ensures PhaseOk(s', k) {
      assert PhaseOk(s, k);
    }
    if |s.slots| < s.limit && s.waiters == [] {
      assert |s'.slots| == |s.slots| + 1;
    } else {
      assert s'.waiters == s.waiters + [i];
      assert forall k | 0 <= k < |s.waiters| :: s'.waiters[k] == s.waiters[k];
      forall k | 0 <= k < |s'.phases| && s'.phases[k].Waiting? ensures k in s'.waiters {
        if k == i {
          assert s'.waiters[|s.waiters|] == i;
        } else {
          assert k in s.waiters;
        }
      }
    }
  }

  lemma {:induction false} DispatchInv(s: State, i: nat)
    requires Inv(s) && Enabled(s, Dispatch(i))
    ensures Inv(Next(s, Dispatch(i)))
  {
    var s' := Next(s, Dispatch(i));
    assert PhaseOk(s, i);
    forall k | 0 <= k < |s'.phases| ensures PhaseOk(s', k) {
      assert PhaseOk(s, k);
    }
  }

  lemma {:induction false} TickInv(s: State, to: real)
    requires Inv(s) && to >= s.now
    ensures Inv(Next(s, Tick(to)))
  {
    var s' := Next(s, Tick(to));
    forall k | 0 <= k < |s'.phases| ensures PhaseOk(s', k) {
      assert PhaseOk(s, k);
    }
  }

  /** The queue and slot part of the invariant after a release. */
  lemma {:induction false} ReleaseQueue(s: State, i: nat, e: RequestEvent)
    requires Inv(s) && i < |s.phases| && s.phases[i].Operating? && s.waiters != []
    ensures var s' := Released(s.(phases := s.phases[i := Ended(e)]), i);
            && s.waiters[0] != i && s.waiters[0] !in s.slots && s.phases[s.waiters[0]].Waiting?
            && QueueInRange(s') && Distinct(s'.waiters)
            && (forall k | 0 <= k < |s'.waiters| :: s'.phases[s'.waiters[k]].Waiting?)
            && (forall k | 0 <= k < |s'.phases| && s'.phases[k].Waiting? :: k in s'.waiters)
  {
    hide PhaseOk;
    var s' := Released(s.(phases := s.phases[i := Ended(e)]), i);
    var head := s.waiters[0];
    assert head in s.waiters && s.phases[head].Waiting? && head != i && head !in s.slots;
    forall k | 0 <= k < |s'.waiters| ensures s'.phases[s'.waiters[k]].Waiting? {
      assert s'.waiters[k] == s.waiters[k + 1];
      assert s.waiters[0] != s.waiters[k + 1];
    }
    forall k | 0 <= k < |s'.phases| && s'.phases[k].Waiting? ensures k in s'.waiters {
      assert k in s.waiters && k != head;
      var m :| 0 <= m < |s.waiters| && s.waiters[m] == k;
      assert s'.waiters[m - 1] == k;
    }
  }

  /** The freed slot goes to the head of the queue. */
  lemma {:induction false} ReleaseSlots(s: State, i: nat, e: RequestEvent)
    requires Inv(s) && i < |s.phases| && s.phases[i].Operating? && s.waiters != []
    ensures var s' := Released(s.(phases := s.phases[i := Ended(e)]), i);
            && |s'.slots| == |s.slots|
            && (forall k | k in s'.slots :: k < |s'.phases| && Holds(s'.phases[k]))
            && (forall k | 0 <= k < |s'.phases| && Holds(s'.phases[k]) :: k in s'.slots)
  {
    hide PhaseOk, Distinct;
    var head := s.waiters[0];
    assert s.phases[head].Waiting? && head != i && head !in s.slots && i in s.slots;
    assert |s.slots - {i}| == |s.slots| - 1;
    assert |s.slots - {i} + {head}| == |s.slots - {i}| + 1;
  }

  lemma {:induction false} FinishPhases(s: State, i: nat, success: bool)
    requires Inv(s) && Enabled(s, Finish(i, success))
    ensures QueueInRange(Next(s, Finish(i, success)))
    ensures forall k | 0 <= k < |s.phases| :: PhaseOk(Next(s, Finish(i, success)), k)
  {
    var s' := Next(s, Finish(i, success));
    assert PhaseOk(s, i);
    EventLaw(s, i, s.phases[i].dispatched, success);
    forall k | 0 <= k < |s'.phases| ensures PhaseOk(s', k) {
      assert PhaseOk(s, k);
    }
  }

  lemma {:induction false} FinishInv(s: State, i: nat, success: bool)
    requires Inv(s) && Enabled(s, Finish(i, success))
    ensures Inv(Next(s, Finish(i, success)))
  {
    hide PhaseOk, Event;
    FinishPhases(s, i, success);
    if s.waiters != [] {
      ReleaseQueue(s, i, Event(i, Scheduled(s, i), s.phases[i].dispatched, s.now, success));
      ReleaseSlots(s, i, Event(i, Scheduled(s, i), s.phases[i].dispatched, s.now, success));
    } else {
      FreeSlot(s, i, Event(i, Scheduled(s, i), s.phases[i].dispatched, s.now, success));
    }
  }

  /** With nobody waiting a released slot is simply free. */
  lemma FreeSlot(s: State, i: nat, e: RequestEvent)
    requires Inv(s) && i < |s.phases| && s.phases[i].Operating? && s.waiters == []
    ensures var s' := Released(s.(phases := s.phases[i := Ended(e)]), i);
            && |s'.slots| == |s.slots| - 1
            && (forall k | 0 <= k < |s'.phases| :: !s'.phases[k].Waiting?)
            && (forall k | k in s'.slots :: k < |s'.phases| && Holds(s'.phases[k]))
            && (forall k | 0 <= k < |s'.phases| && Holds(s'.phases[k]) :: k in s'.slots)
  {
    hide PhaseOk;
    assert i in s.slots;
    assert |s.slots - {i}| == |s.slots| - 1;
  }

  lemma NextInv(s: State, a: Action)
    requires Inv(s)
    ensures Inv(Next(s, a))
    ensures Next(s, a).limit == s.limit && Next(s, a).offsets == s.offsets && Next(s, a).origin == s.origin
    ensures Next(s, a).now >= s.now
  {
    if Enabled(s, a) {
      match a
      case Tick(to) => TickInv(s, to);
      case Wake(i) => WakeInv(s, i);
      case Dispatch(i) => DispatchInv(s, i);
      case Finish(i, success) => FinishInv(s, i, success);
    }
  }

  /** The states of a run, from any state in which the invariant holds. */
  ghost predicate Reaches(s: State, actions: seq<Action>, t: State)
    decreases |actions|
  {
    if actions == [] then t == s
    else QueueInRange(s) && Reaches(Next(s, actions[0]), actions[1..], t)
  }

  lemma {:induction false} ReachesInv(s: State, actions: seq<Action>, t: State)
    requires Inv(s) && Reaches(s, actions, t)
    ensures Inv(t) && t.limit == s.limit && t.offsets == s.offsets && t.origin == s.origin && t.now >= s.now
    decreases |actions|
  {
    if actions != [] {
      NextInv(s, actions[0]);
      ReachesInv(Next(s, actions[0]), actions[1..], t);
    }
  }

  /** Every interleaving: the number of requests in flight never exceeds the limit; a request waits only
      while all slots are taken; slots are held by exactly the requests in flight, so failing operations
      leak none; and every finished request reports its own schedule, in order, with the delays between its
      own times. */
  lemma Safety(limit: nat, origin: real, offsets: seq<real>, actions: seq<Action>, s: State)
    requires Reaches(Start(limit, origin, offsets), actions, s)
    ensures |s.phases| == |offsets| && |s.slots| <= limit
    ensures forall i | 0 <= i < |s.phases| :: i in s.slots <==> Holds(s.phases[i])
    ensures forall i | 0 <= i < |s.phases| && s.phases[i].Waiting? :: |s.slots| == limit
    ensures forall i | 0 <= i < |s.phases| && s.phases[i].Ended? ::
              var e := s.phases[i].event;
              && e.requestId == i && e.scheduled == origin + offsets[i]
              && e.scheduled <= e.dispatched <= e.completed <= s.now
              && e.queueDelayMs == (e.dispatched - e.scheduled) * 1000.0
              && e.serviceMs == (e.completed - e.dispatched) * 1000.0
              && e.endToEndMs == (e.completed - e.scheduled) * 1000.0
  {
    StartInv(limit, origin, offsets);
    ReachesInv(Start(limit, origin, offsets), actions, s);
    forall i | 0 <= i < |s.phases| && s.phases[i].Ended? ensures EventOk(s, i, s.phases[i].event) {
      assert PhaseOk(s, i);
    }
  }

  // ---- where a reported event comes from ---------------------------------

  lemma EndedStays(s: State, a: Action, i: nat)
    requires Inv(s) && i < |s.phases|
    ensures |Next(s, a).phases| == |s.phases|
    ensures s.phases[i].Ended? ==> Next(s, a).phases[i] == s.phases[i]
    ensures s.phases[i].Operating? && Next(s, a).phases[i] != s.phases[i] ==> Next(s, a).phases[i].Ended?
    ensures !s.phases[i].Ended? && Next(s, a).phases[i].Ended? ==>
              && s.phases[i].Operating? && a.Finish? && a.i == i
              && Next(s, a).phases[i].event.dispatched == s.phases[i].dispatched
              && Next(s, a).phases[i].event.completed == s.now && Next(s, a).phases[i].event.success == a.success
    ensures !s.phases[i].Operating? && Next(s, a).phases[i].Operating? ==>
              s.phases[i].Granted? && a == Dispatch(i) && Next(s, a).phases[i].dispatched == s.now
  {
    hide PhaseOk;
    if Enabled(s, a) && a.Finish? && s.waiters != [] {
      assert s.phases[s.waiters[0]].Waiting?;
    }
  }

  lemma {:induction false} StaysEnded(s: State, actions: seq<Action>, t: State, i: nat)
    requires Inv(s) && Reaches(s, actions, t) && i < |s.phases| && s.phases[i].Ended?
    ensures i < |t.phases| && t.phases[i] == s.phases[i]
    decreases |actions|
  {
    if actions != [] {
      NextInv(s, actions[0]);
      EndedStays(s, actions[0], i);
      hide Inv;
      StaysEnded(Next(s, actions[0]), actions[1..], t, i);
    }
  }

  /** The action that ended request i, and the state it found. */
  lemma {:induction false} FinishOf(s: State, actions: seq<Action>, t: State, i: nat) returns (k: nat, u: State)
    requires Inv(s) && Reaches(s, actions, t) && i < |s.phases| && !s.phases[i].Ended?
    requires i < |t.phases| && t.phases[i].Ended?
    ensures k < |actions| && Reaches(s, actions[..k], u) && i < |u.phases|
    ensures var e := t.phases[i].event; actions[k] == Finish(i, e.success) && u.phases[i] == Operating(e.dispatched) && u.now == e.completed
    decreases |actions|
  {
    var a, rest := actions[0], actions[1..];
    NextInv(s, a);
    EndedStays(s, a, i);
    hide Inv;
    if Next(s, a).phases[i].Ended? {
      k, u := 0, s;
      StaysEnded(Next(s, a), rest, t, i);
    } else {
      k, u := FinishOf(Next(s, a), rest, t, i);
      Longer(s, actions, k, u);
      k := k + 1;
    }
  }

  lemma Longer(s: State, actions: seq<Action>, k: nat, u: State)
    requires actions != [] && k <= |actions| - 1 && QueueInRange(s) && Reaches(Next(s, actions[0]), actions[1..][..k], u)
    ensures Reaches(s, actions[..k + 1], u)
  {
    assert actions[..k + 1][1..] == actions[1..][..k];
  }

  /** The action that dispatched request i. */
  lemma {:induction false} DispatchOf(s: State, actions: seq<Action>, t: State, i: nat) returns (j: nat, u: State)
    requires Inv(s) && Reaches(s, actions, t) && i < |s.phases| && !s.phases[i].Ended? && !s.phases[i].Operating?
    requires i < |t.phases| && t.phases[i].Operating?
    ensures j < |actions| && Reaches(s, actions[..j], u) && i < |u.phases|
    ensures actions[j] == Dispatch(i) && u.phases[i].Granted? && u.now == t.phases[i].dispatched
    decreases |actions|
  {
    var a, rest := actions[0], actions[1..];
    NextInv(s, a);
    EndedStays(s, a, i);
    hide Inv;
    if Next(s, a).phases[i].Operating? {
      j, u := 0, s;
      StaysOperating(Next(s, a), rest, t, i);
    } else {
      j, u := DispatchOf(Next(s, a), rest, t, i);
      Longer(s, actions, j, u);
      j := j + 1;
    }
  }

  lemma {:induction false} StaysOperating(s: State, actions: seq<Action>, t: State, i: nat)
    requires Inv(s) && Reaches(s, actions, t) && i < |s.phases| && s.phases[i].Operating?
    requires i < |t.phases| && !t.phases[i].Ended?
    ensures t.phases[i] == s.phases[i]
    decreases |actions|
  {
    if actions != [] {
      var a, rest := actions[0], actions[1..];
      NextInv(s, a);
      EndedStays(s, a, i);
      hide Inv;
      if Next(s, a).phases[i].Ended? {
        StaysEnded(Next(s, a), rest, t, i);
      } else {
        StaysOperating(Next(s, a), rest, t, i);
      }
    }
  }

  /** Action j of the run is `a`, and the state u that it found had the clock at `now` and request i in this
      phase. */
  ghost predicate TakenIn(s: State, actions: seq<Action>, j: nat, u: State, i: nat, a: Action, phase: Phase, now: real) {
    j < |actions| && actions[j] == a && Reaches(s, actions[..j], u) && i < |u.phases| && u.phases[i] == phase && u.now == now
  }

  /** Every reported event is what happened to its request: it was dispatched, from a slot it had been given,
      when the clock showed `dispatched`, and an action that ended it with this success did so when the
      clock showed `completed`. */
  lemma EventsHappened(limit: nat, origin: real, offsets: seq<real>, actions: seq<Action>, s: State, i: nat)
      returns (j: nat, k: nat, u: State, v: State)
    requires Reaches(Start(limit, origin, offsets), actions, s)
    requires i < |s.phases| && s.phases[i].Ended?
    ensures j < k
    ensures TakenIn(Start(limit, origin, offsets), actions, j, u, i, Dispatch(i), Granted, s.phases[i].event.dispatched)
    ensures TakenIn(Start(limit, origin, offsets), actions, k, v, i, Finish(i, s.phases[i].event.success),
                    Operating(s.phases[i].event.dispatched), s.phases[i].event.completed)
  {
    var start := Start(limit, origin, offsets);
    StartInv(limit, origin, offsets);
    ReachesInv(start, actions, s);
    assert |s.phases| == |start.phases|;
    hide Inv, Reaches;
    k, v := FinishOf(start, actions, s, i);
    j, u := DispatchOf(start, actions[..k], v, i);
    assert actions[..k][..j] == actions[..j];
  }

  predicate AllEnded(s: State) {
    forall i | 0 <= i < |s.phases| :: s.phases[i].Ended?
  }

  /** The gathered results. */
  function Results(s: State): (r: seq<RequestEvent>)
    requires AllEnded(s)
  {
    seq(|s.phases|, i requires 0 <= i < |s.phases| => s.phases[i].event)
  }

  /** At the end there is one result per offset, in offset order, and every slot is free again. */
  lemma ResultsComplete(limit: nat, origin: real, offsets: seq<real>, actions: seq<Action>, s: State)
    requires Reaches(Start(limit, origin, offsets), actions, s) && AllEnded(s)
    ensures |Results(s)| == |offsets| && s.slots == {} && s.waiters == []
    ensures forall i | 0 <= i < |offsets| :: Results(s)[i].requestId == i && Results(s)[i].scheduled == origin + offsets[i]
  {
    Safety(limit, origin, offsets, actions, s);
    StartInv(limit, origin, offsets);
    ReachesInv(Start(limit, origin, offsets), actions, s);
    assert forall i :: i !in s.slots;
    FrontSize(s, |s.waiters|);
    assert forall i :: i !in Front(s, |s.waiters|);
  }

  /** With a positive limit no reachable state is stuck: unless all requests have ended, some request
      can step once the clock has reached its time. With limit 0 no request is ever dispatched. */
  lemma NoDeadlock(s: State)
    requires Inv(s) && s.limit > 0 && !AllEnded(s)
    ensures exists a: Action :: !a.Tick? && Enabled(Next(s, Tick(Later(s, a))), a)
  {
    var i :| 0 <= i < |s.phases| && !s.phases[i].Ended?;
    if s.phases[i].Sleeping? {
      assert Enabled(Next(s, Tick(Later(s, Wake(i)))), Wake(i));
    } else {
      var holder := i;
      if s.phases[i].Waiting? {
        assert s.slots != {};
        holder :| holder in s.slots;
      }
      if s.phases[holder].Granted? {
        assert Enabled(Next(s, Tick(Later(s, Dispatch(holder)))), Dispatch(holder));
      } else {
        assert Enabled(Next(s, Tick(Later(s, Finish(holder, true)))), Finish(holder, true));
      }
    }
  }

  function Later(s: State, a: Action): (t: real) {
    if a.Wake? && a.i < |s.offsets| && Scheduled(s, a.i) > s.now then Scheduled(s, a.i) else s.now
  }

  lemma LimitZeroServesNobody(origin: real, offsets: seq<real>, actions: seq<Action>, s: State, i: nat)
    requires Reaches(Start(0, origin, offsets), actions, s) && i < |offsets|
    ensures |s.phases| == |offsets| && (s.phases[i].Sleeping? || s.phases[i].Waiting?)
  {
    StartInv(0, origin, offsets);
    NobodyServed(Start(0, origin, offsets), actions, s);
  }

  ghost predicate Unserved(s: State) {
    forall i | 0 <= i < |s.phases| :: s.phases[i].Sleeping? || s.phases[i].Waiting?
  }

  lemma {:induction false} NobodyServed(s: State, actions: seq<Action>, t: State)
    requires Inv(s) && s.limit == 0 && Unserved(s) && Reaches(s, actions, t)
    ensures Unserved(t) && |t.phases| == |s.phases|
    decreases |actions|
  {
    if actions != [] {
      NextInv(s, actions[0]);
      NobodyServed(Next(s, actions[0]), actions[1..], t);
    }
  }

  // ---- queueing bound ----------------------------------------------------

  /** When a request was dispatched, if it was. */
  function DispatchTime(p: Phase): (t: Option<real>) {
    match p
    case Operating(d) => Some(d)
    case Ended(e) => Some(e.dispatched)
    case _ => None
  }

  /** A granted slot is used at once, and no operation takes longer than `service`. */
  ghost predicate Prompt(s: State, service: real) {
    && (forall i | 0 <= i < |s.phases| && s.phases[i].Operating? :: s.now - s.phases[i].dispatched <= service)
  }

  ghost predicate NoneGranted(s: State) {
    forall i | 0 <= i < |s.phases| :: !s.phases[i].Granted?
  }

  /** Time passes only while no granted slot is unused, and never beyond the end of an operation. */
  ghost predicate PromptRun(s: State, actions: seq<Action>, service: real)
    decreases |actions|
  {
    actions == [] ||
    (QueueInRange(s)
     && (actions[0].Tick? ==> actions[0].to > s.now ==> NoneGranted(s) && Prompt(Next(s, actions[0]), service))
     && PromptRun(Next(s, actions[0]), actions[1..], service))
  }

  function Deadline(joined: real, service: real, j: nat): (t: real) {
    joined + j as real * service
  }

  lemma DeadlineStep(joined: real, service: real, j: nat)
    requires j > 0
    ensures Deadline(joined, service, j) == Deadline(joined, service, j - 1) + service
  {
    assert j as real == (j - 1) as real + 1.0;
  }

  /** The requests of `ahead` dispatched by a given time. */
  function DispatchedBy(s: State, ahead: set<nat>, t: real): (r: set<nat>) {
    set i | i in ahead && i < |s.phases| && DispatchTime(s.phases[i]).Some? && DispatchTime(s.phases[i]).value <= t
  }

  /** What is known while request `r` is in the queue: `ahead` were in front of it when it joined,
      `holders` held the slots then. */
  ghost predicate Tracks(s: State, r: nat, ahead: set<nat>, holders: set<nat>, joined: real, service: real) {
    && Inv(s) && s.limit > 0 && joined <= s.now
    && r in s.waiters && r !in ahead && r !in holders && ahead !! holders
    // Whoever is in front of r now was in front of it then.
    && (forall k, m | 0 <= k < m < |s.waiters| && s.waiters[m] == r :: s.waiters[k] in ahead)
    // Only requests that were ahead, or held a slot already, can hold one now.
    && (forall i | i in s.slots :: i in ahead || i in holders)
    && (forall i | i in holders && i < |s.phases| :: OldHolder(s, i, joined))
    && (forall i | i in ahead && i < |s.phases| :: NewHolder(s, i, joined))
    && (forall j: nat :: Enough(s, ahead, joined, service, j))
  }

  ghost predicate OldHolder(s: State, i: nat, joined: real)
    requires i < |s.phases|
  {
    && (s.phases[i].Granted? ==> s.now == joined)
    && (DispatchTime(s.phases[i]).Some? ==> DispatchTime(s.phases[i]).value <= joined)
    && (s.phases[i].Granted? || DispatchTime(s.phases[i]).Some?)
  }

  ghost predicate NewHolder(s: State, i: nat, joined: real)
    requires i < |s.phases|
  {
    DispatchTime(s.phases[i]).Some? ==> joined <= DispatchTime(s.phases[i]).value <= s.now
  }

  /** Once `j` service times have gone by since r joined, `j` full rounds of slots have been dispatched. */
  ghost predicate Enough(s: State, ahead: set<nat>, joined: real, service: real, j: nat) {
    s.now > Deadline(joined, service, j) ==>
      |DispatchedBy(s, ahead, Deadline(joined, service, j))| >= j * s.limit
  }

  /** The heart of the bound: at a tick past the j-th deadline all slots are held by requests that were
      dispatched after the previous deadline, which adds one full round. */
  lemma {:induction false} TickEnough(s: State, to: real, r: nat, ahead: set<nat>, holders: set<nat>, joined: real, service: real, j: nat)
    requires Tracks(s, r, ahead, holders, joined, service) && to > s.now && service >= 0.0
    requires NoneGranted(s) && Prompt(Next(s, Tick(to)), service)
    ensures Enough(Next(s, Tick(to)), ahead, joined, service, j)
    decreases j
  {
    var s' := Next(s, Tick(to));
    var t := Deadline(joined, service, j);
    if j > 0 && to > t {
      if s.now > t {
        assert Enough(s, ahead, joined, service, j);
        assert DispatchedBy(s', ahead, t) == DispatchedBy(s, ahead, t);
      } else {
        DeadlineStep(joined, service, j);
        var before := Deadline(joined, service, j - 1);
        TickEnough(s, to, r, ahead, holders, joined, service, j - 1);
        DeadlineAfterJoin(joined, service, j - 1);
        SlotsAreRecent(s, to, r, ahead, holders, joined, service, before, t);
        OneMoreRound(DispatchedBy(s', ahead, before), s.slots, DispatchedBy(s', ahead, t), j, s.limit);
      }
    }
  }

  lemma OneMoreRound(early: set<nat>, slots: set<nat>, later: set<nat>, j: nat, limit: nat)
    requires j > 0 && |early| >= (j - 1) * limit && |slots| == limit && early !! slots && early + slots <= later
    ensures |later| >= j * limit
  {
    SubsetSize(early + slots, later);
    assert |early + slots| == |early| + |slots|;
    assert j * limit == (j - 1) * limit + limit;
  }

  lemma DeadlineAfterJoin(joined: real, service: real, j: nat)
    requires service >= 0.0
    ensures Deadline(joined, service, j) >= joined
  {
  }

  lemma {:induction false} SlotsAreRecent(s: State, to: real, r: nat, ahead: set<nat>, holders: set<nat>, joined: real, service: real, before: real, t: real)
    requires Tracks(s, r, ahead, holders, joined, service) && to > s.now
    requires NoneGranted(s) && Prompt(Next(s, Tick(to)), service)
    requires joined <= before <= t == before + service && s.now <= t < to
    ensures |s.slots| == s.limit
    ensures s.slots !! DispatchedBy(Next(s, Tick(to)), ahead, before)
    ensures DispatchedBy(Next(s, Tick(to)), ahead, before) + s.slots <= DispatchedBy(Next(s, Tick(to)), ahead, t)
  {
    hide Enough;
    var s' := Next(s, Tick(to));
    forall i | i in s.slots
      ensures i in ahead && i in DispatchedBy(s', ahead, t) && i !in DispatchedBy(s', ahead, before)
    {
      assert Holds(s.phases[i]) && s.phases[i].Operating?;
      assert s'.phases[i] == s.phases[i] && s'.now - s.phases[i].dispatched <= service;
      assert PhaseOk(s, i);
      assert i in holders ==> OldHolder(s, i, joined);
    }
  }

  lemma {:induction false} TickTracks(s: State, to: real, r: nat, ahead: set<nat>, holders: set<nat>, joined: real, service: real)
    requires Tracks(s, r, ahead, holders, joined, service) && to > s.now && service >= 0.0
    requires NoneGranted(s) && Prompt(Next(s, Tick(to)), service)
    ensures Tracks(Next(s, Tick(to)), r, ahead, holders, joined, service)
  {
    var s' := Next(s, Tick(to));
    TickInv(s, to);
    forall j: nat ensures Enough(s', ahead, joined, service, j) {
      TickEnough(s, to, r, ahead, holders, joined, service, j);
    }
    hide Enough, DispatchedBy;
    forall i | i in holders && i < |s'.phases| ensures OldHolder(s', i, joined) {
      assert OldHolder(s, i, joined);
    }
    forall i | i in ahead && i < |s'.phases| ensures NewHolder(s', i, joined) {
      assert NewHolder(s, i, joined);
    }
  }

  /** Steps that take no time keep every dispatch that has been made. */
  lemma {:induction false} EnoughGrows(s: State, s': State, ahead: set<nat>, joined: real, service: real)
    requires s'.now == s.now && s'.limit == s.limit && |s'.phases| == |s.phases|
    requires forall i | i in ahead && i < |s.phases| && DispatchTime(s.phases[i]).Some? ::
               DispatchTime(s'.phases[i]) == DispatchTime(s.phases[i])
    requires forall j: nat :: Enough(s, ahead, joined, service, j)
    ensures forall j: nat :: Enough(s', ahead, joined, service, j)
  {
    forall j: nat ensures Enough(s', ahead, joined, service, j) {
      assert Enough(s, ahead, joined, service, j);
      var t := Deadline(joined, service, j);
      SubsetSize(DispatchedBy(s, ahead, t), DispatchedBy(s', ahead, t));
    }
  }

  lemma {:induction false} WakeTracks(s: State, i: nat, r: nat, ahead: set<nat>, holders: set<nat>, joined: real, service: real)
    requires Tracks(s, r, ahead, holders, joined, service) && Enabled(s, Wake(i))
    ensures Tracks(Next(s, Wake(i)), r, ahead, holders, joined, service)
  {
    var s' := Next(s, Wake(i));
    WakeInv(s, i);
    EnoughGrows(s, s', ahead, joined, service);
    hide Enough, DispatchedBy, PhaseOk;
    assert s.waiters != [] && s'.waiters == s.waiters + [i];
    assert i !in s.waiters && r != i;
    forall k, m | 0 <= k < m < |s'.waiters| && s'.waiters[m] == r ensures s'.waiters[k] in ahead {
      assert m < |s.waiters| && s'.waiters[k] == s.waiters[k];
    }
    forall k | k in holders && k < |s'.phases| ensures OldHolder(s', k, joined) {
      assert OldHolder(s, k, joined);
    }
    forall k | k in ahead && k < |s'.phases| ensures NewHolder(s', k, joined) {
      assert NewHolder(s, k, joined);
    }
  }

  lemma {:induction false} DispatchTracks(s: State, i: nat, r: nat, ahead: set<nat>, holders: set<nat>, joined: real, service: real)
    requires Tracks(s, r, ahead, holders, joined, service) && Enabled(s, Dispatch(i))
    ensures Tracks(Next(s, Dispatch(i)), r, ahead, holders, joined, service)
  {
    var s' := Next(s, Dispatch(i));
    DispatchInv(s, i);
    EnoughGrows(s, s', ahead, joined, service);
    hide Enough, DispatchedBy, PhaseOk;
    forall k | k in holders && k < |s'.phases| ensures OldHolder(s', k, joined) {
      assert OldHolder(s, k, joined);
    }
    forall k | k in ahead && k < |s'.phases| ensures NewHolder(s', k, joined) {
      assert NewHolder(s, k, joined);
    }
  }

  lemma {:induction false} FinishQueue(s: State, i: nat, success: bool, r: nat, ahead: set<nat>, holders: set<nat>, joined: real, service: real)
    requires Tracks(s, r, ahead, holders, joined, service) && Enabled(s, Finish(i, success))
    requires s.waiters[0] != r
    ensures var s' := Next(s, Finish(i, success));
            && r in s'.waiters && s.waiters[0] in ahead && s'.slots == s.slots - {i} + {s.waiters[0]}
            && s'.now == s.now && s'.limit == s.limit && |s'.phases| == |s.phases|
            && s'.phases[s.waiters[0]] == Granted && s.phases[s.waiters[0]].Waiting? && s.waiters[0] != i
            && (forall k | 0 <= k < |s.phases| && k != i && k != s.waiters[0] :: s'.phases[k] == s.phases[k])
            && s.phases[i].Operating? && s'.phases[i].Ended? && DispatchTime(s'.phases[i]) == DispatchTime(s.phases[i])
            && (forall k, m | 0 <= k < m < |s'.waiters| && s'.waiters[m] == r :: s'.waiters[k] in ahead)
  {
    hide Enough, PhaseOk, OldHolder, NewHolder;
    var s' := Next(s, Finish(i, success));
    var at :| 0 <= at < |s.waiters| && s.waiters[at] == r;
    assert s.phases[s.waiters[0]].Waiting?;
    assert s'.waiters[at - 1] == r;
    forall k, m | 0 <= k < m < |s'.waiters| && s'.waiters[m] == r ensures s'.waiters[k] in ahead {
      assert s'.waiters[k] == s.waiters[k + 1] && s'.waiters[m] == s.waiters[m + 1];
    }
  }

  lemma {:induction false} FinishTracks(s: State, i: nat, success: bool, r: nat, ahead: set<nat>, holders: set<nat>, joined: real, service: real)
    requires Tracks(s, r, ahead, holders, joined, service) && Enabled(s, Finish(i, success))
    requires s.waiters[0] != r
    ensures Tracks(Next(s, Finish(i, success)), r, ahead, holders, joined, service)
  {
    hide PhaseOk, Distinct, QueueInRange, DispatchTime;
    var s' := Next(s, Finish(i, success));
    FinishInv(s, i, success);
    FinishQueue(s, i, success, r, ahead, holders, joined, service);
    hide Next, Released, Inv, Enough, DispatchedBy, OldHolder, NewHolder, Enabled;
    FinishDispatches(s, s', i, s.waiters[0], ahead);
    EnoughGrows(s, s', ahead, joined, service);
    FinishHolders(s, s', i, s.waiters[0], ahead, holders, joined);
  }

  lemma FinishDispatches(s: State, s': State, i: nat, head: nat, ahead: set<nat>)
    requires i < |s.phases| && head < |s.phases| == |s'.phases|
    requires s.phases[head].Waiting? && DispatchTime(s'.phases[i]) == DispatchTime(s.phases[i])
    requires forall k | 0 <= k < |s.phases| && k != i && k != head :: s'.phases[k] == s.phases[k]
    ensures forall k | k in ahead && k < |s.phases| && DispatchTime(s.phases[k]).Some? ::
              DispatchTime(s'.phases[k]) == DispatchTime(s.phases[k])
  {
  }

  lemma {:induction false} FinishHolders(s: State, s': State, i: nat, head: nat, ahead: set<nat>, holders: set<nat>, joined: real)
    requires i < |s.phases| && head < |s.phases| == |s'.phases| && s'.now == s.now
    requires s'.phases[head] == Granted && head !in holders
    requires s.phases[i].Operating? && s'.phases[i].Ended? && DispatchTime(s'.phases[i]) == DispatchTime(s.phases[i])
    requires forall k | 0 <= k < |s.phases| && k != i && k != head :: s'.phases[k] == s.phases[k]
    requires forall k | k in holders && k < |s.phases| :: OldHolder(s, k, joined)
    requires forall k | k in ahead && k < |s.phases| :: NewHolder(s, k, joined)
    ensures forall k | k in holders && k < |s'.phases| :: OldHolder(s', k, joined)
    ensures forall k | k in ahead && k < |s'.phases| :: NewHolder(s', k, joined)
  {
    forall k | k in holders && k < |s'.phases| ensures OldHolder(s', k, joined) {
      assert OldHolder(s, k, joined);
    }
    forall k | k in ahead && k < |s'.phases| ensures NewHolder(s', k, joined) {
      assert NewHolder(s, k, joined);
    }
  }

  /** r is no longer asleep, and by `bound` it has been dispatched, or `bound` has not passed yet. */
  ghost predicate ServedBy(s: State, r: nat, bound: real) {
    && r < |s.phases| && !s.phases[r].Sleeping?
    && (s.phases[r].Waiting? || s.phases[r].Granted? ==> s.now <= bound)
    && (DispatchTime(s.phases[r]).Some? ==> DispatchTime(s.phases[r]).value <= bound)
  }

  /** When a request with `w` requests in front of it at time `joined` is dispatched at the latest. */
  function WaitBound(joined: real, service: real, w: nat, limit: nat): (t: real)
    requires limit > 0
  {
    Deadline(joined, service, w / limit + 1)
  }

  lemma Rounds(w: nat, limit: nat)
    requires limit > 0
    ensures (w / limit + 1) * limit > w
  {
    assert w == w / limit * limit + w % limit;
  }

  /** While r waits, the bound on its waiting time has not passed. */
  lemma BoundWhileWaiting(s: State, r: nat, ahead: set<nat>, holders: set<nat>, joined: real, service: real)
    requires Tracks(s, r, ahead, holders, joined, service)
    ensures Inv(s) && s.waiters != [] && r < |s.phases| && s.phases[r].Waiting?
    ensures ServedBy(s, r, WaitBound(joined, service, |ahead|, s.limit))
  {
    hide OldHolder, NewHolder, PhaseOk;
    var j := |ahead| / s.limit + 1;
    assert Enough(s, ahead, joined, service, j);
    SubsetSize(DispatchedBy(s, ahead, Deadline(joined, service, j)), ahead);
    Rounds(|ahead|, s.limit);
  }

  /** What one step of a prompt run says. */
  lemma RunStep(s: State, actions: seq<Action>, t: State, service: real)
    requires Inv(s) && actions != [] && PromptRun(s, actions, service) && Reaches(s, actions, t)
    ensures Inv(Next(s, actions[0])) && Next(s, actions[0]).limit == s.limit
    ensures PromptRun(Next(s, actions[0]), actions[1..], service) && Reaches(Next(s, actions[0]), actions[1..], t)
    ensures actions[0].Tick? && actions[0].to > s.now ==> NoneGranted(s) && Prompt(Next(s, actions[0]), service)
  {
    NextInv(s, actions[0]);
    hide Inv, Next, Prompt, NoneGranted;
  }

  lemma StepServed(s: State, a: Action, r: nat, bound: real)
    requires Inv(s) && ServedBy(s, r, bound) && !s.phases[r].Waiting?
    requires a.Tick? && a.to > s.now ==> NoneGranted(s)
    ensures ServedBy(Next(s, a), r, bound) && !Next(s, a).phases[r].Waiting?
  {
    hide PhaseOk;
    if Enabled(s, a) && a.Finish? && s.waiters != [] {
      assert s.phases[s.waiters[0]].Waiting?;
    }
  }

  lemma {:induction false} StaysServed(s: State, actions: seq<Action>, t: State, r: nat, bound: real, service: real)
    requires Inv(s) && ServedBy(s, r, bound) && !s.phases[r].Waiting?
    requires PromptRun(s, actions, service) && Reaches(s, actions, t)
    ensures ServedBy(t, r, bound)
    decreases |actions|
  {
    if actions != [] {
      RunStep(s, actions, t, service);
      StepServed(s, actions[0], r, bound);
      hide *;
      StaysServed(Next(s, actions[0]), actions[1..], t, r, bound, service);
    }
  }

  /** The slot freed by a finishing request goes to r when r is at the head. */
  lemma HeadServed(s: State, i: nat, success: bool, r: nat, bound: real)
    requires Inv(s) && Enabled(s, Finish(i, success)) && s.waiters != [] && s.waiters[0] == r
    requires ServedBy(s, r, bound)
    ensures ServedBy(Next(s, Finish(i, success)), r, bound) && !Next(s, Finish(i, success)).phases[r].Waiting?
  {
    hide PhaseOk;
    assert s.phases[s.waiters[0]].Waiting?;
  }

  lemma {:induction false} TracksToEnd(s: State, actions: seq<Action>, t: State, r: nat, ahead: set<nat>, holders: set<nat>, joined: real, service: real)
    requires Tracks(s, r, ahead, holders, joined, service) && s.limit > 0 && service >= 0.0
    requires PromptRun(s, actions, service) && Reaches(s, actions, t)
    ensures ServedBy(t, r, WaitBound(joined, service, |ahead|, s.limit))
    decreases |actions|
  {
    hide Tracks, Inv, ServedBy, WaitBound, PromptRun, Next, Enabled, Prompt, NoneGranted;
    BoundWhileWaiting(s, r, ahead, holders, joined, service);
    if actions != [] {
      hide Reaches;
      var a := actions[0];
      RunStep(s, actions, t, service);
      if a.Finish? && Enabled(s, a) && s.waiters[0] == r {
        HeadServed(s, a.i, a.success, r, WaitBound(joined, service, |ahead|, s.limit));
        StaysServed(Next(s, a), actions[1..], t, r, WaitBound(joined, service, |ahead|, s.limit), service);
      } else {
        StepTracks(s, a, r, ahead, holders, joined, service);
        TracksToEnd(Next(s, a), actions[1..], t, r, ahead, holders, joined, service);
      }
    }
  }

  lemma StepTracks(s: State, a: Action, r: nat, ahead: set<nat>, holders: set<nat>, joined: real, service: real)
    requires Tracks(s, r, ahead, holders, joined, service) && service >= 0.0
    requires a.Tick? && a.to > s.now ==> NoneGranted(s) && Prompt(Next(s, a), service)
    requires !(a.Finish? && Enabled(s, a) && s.waiters[0] == r)
    ensures Tracks(Next(s, a), r, ahead, holders, joined, service)
  {
    if Enabled(s, a) {
      match a
      case Tick(to) =>
        if to > s.now {
          TickTracks(s, to, r, ahead, holders, joined, service);
        } else {
          assert Next(s, a) == s;
        }
      case Wake(i) => WakeTracks(s, i, r, ahead, holders, joined, service);
      case Dispatch(i) => DispatchTracks(s, i, r, ahead, holders, joined, service);
      case Finish(i, success) => FinishTracks(s, i, success, r, ahead, holders, joined, service);
    }
  }

  function Front(s: State, at: nat): (r: set<nat>)
    requires at <= |s.waiters|
  {
    set k | 0 <= k < at :: s.waiters[k]
  }

  lemma {:induction false} FrontSize(s: State, at: nat)
    requires at <= |s.waiters| && Distinct(s.waiters)
    ensures |Front(s, at)| == at
  {
    if at > 0 {
      FrontSize(s, at - 1);
      assert Front(s, at) == Front(s, at - 1) + {s.waiters[at - 1]};
    }
  }

  lemma DistinctWaiters(s: State)
    requires Inv(s)
    ensures Distinct(s.waiters)
  {
    hide PhaseOk;
  }

  /** Queueing bound. If a granted slot is used at once and every operation takes at most `service`, a
      request that has `w` requests in front of it in the queue is dispatched within
      (w / limit + 1) * service from now, in every interleaving: so no request starves. */
  lemma QueueingBound(s: State, actions: seq<Action>, t: State, r: nat, w: nat, service: real)
    requires Inv(s) && s.limit > 0 && service >= 0.0
    requires w < |s.waiters| && s.waiters[w] == r
    requires PromptRun(s, actions, service) && Reaches(s, actions, t)
    ensures ServedBy(t, r, WaitBound(s.now, service, w, s.limit))
  {
    hide *;
    DistinctWaiters(s);
    FrontSize(s, w);
    JoinTracks(s, r, w, service);
    TracksToEnd(s, actions, t, r, Front(s, w), s.slots, s.now, service);
  }

  lemma {:induction false} JoinTracks(s: State, r: nat, w: nat, service: real)
    requires Inv(s) && s.limit > 0 && service >= 0.0
    requires w < |s.waiters| && s.waiters[w] == r
    ensures Tracks(s, r, Front(s, w), s.slots, s.now, service)
  {
    var ahead := Front(s, w);
    forall i | i in ahead ensures i in s.waiters && i != r && i !in s.slots && s.phases[i].Waiting? {
      var k :| 0 <= k < w && s.waiters[k] == i;
    }
    assert r in s.waiters && s.phases[r].Waiting?;
    forall i | i in s.slots ensures OldHolder(s, i, s.now) {
      assert Holds(s.phases[i]) && PhaseOk(s, i);
    }
    forall j: nat ensures Enough(s, ahead, s.now, service, j) {
      DeadlineAfterJoin(s.now, service, j);
    }
    forall k, m | 0 <= k < m < |s.waiters| && s.waiters[m] == r ensures s.waiters[k] in ahead {
      assert m == w;
    }
  }

  /** How long the rounds of a whole load take once all its requests are awake. */
  function RoundsTime(n: nat, limit: nat, service: real): (t: real)
    requires limit > 0 && service >= 0.0
    ensures t >= 0.0
  {
    (n / limit + 2) as real * service
  }

  /** A run terminates: once every request has reached the semaphore, everything has ended after a
      bounded time, the number of full rounds of the limit plus two. */
  lemma EverythingEnds(s: State, actions: seq<Action>, t: State, service: real)
    requires Inv(s) && s.limit > 0 && service >= 0.0 && Prompt(s, service)
    requires forall i | 0 <= i < |s.phases| :: !s.phases[i].Sleeping?
    requires PromptRun(s, actions, service) && Reaches(s, actions, t)
    requires t.now > s.now + RoundsTime(|s.offsets|, s.limit, service)
    ensures AllEnded(t)
  {
    hide Reaches, PromptRun, Inv, Prompt, RoundsTime;
    SamePhases(s, actions, t);
    forall i | 0 <= i < |t.phases| ensures t.phases[i].Ended? {
      OneEnds(s, actions, t, i, service);
    }
  }

  /** Time never passes the scheduled time of a request that still sleeps. */
  ghost predicate WakesOnTime(s: State, actions: seq<Action>)
    decreases |actions|
  {
    actions == [] ||
    (QueueInRange(s)
     && (actions[0].Tick? && actions[0].to > s.now ==>
           forall i | 0 <= i < |s.phases| && s.phases[i].Sleeping? :: actions[0].to <= Scheduled(s, i))
     && WakesOnTime(Next(s, actions[0]), actions[1..]))
  }

  /** The whole load: if sleepers wake on time, granted slots are used at once and no operation takes
      longer than `service`, then everything has ended once the full rounds of the limit plus two have
      gone by since the last scheduled time, in every interleaving. */
  lemma LoadEnds(limit: nat, origin: real, offsets: seq<real>, last: real, actions: seq<Action>, t: State, service: real)
    requires limit > 0 && service >= 0.0
    requires last >= 0.0 && forall i | 0 <= i < |offsets| :: offsets[i] <= last
    requires PromptRun(Start(limit, origin, offsets), actions, service) && WakesOnTime(Start(limit, origin, offsets), actions)
    requires Reaches(Start(limit, origin, offsets), actions, t)
    requires t.now > origin + last + RoundsTime(|offsets|, limit, service)
    ensures AllEnded(t)
  {
    StartInv(limit, origin, offsets);
    hide PromptRun, WakesOnTime, Reaches, AllEnded, Inv;
    EndsAfterLast(Start(limit, origin, offsets), origin + last, actions, t, service);
  }

  lemma {:induction false} EndsAfterLast(s: State, last: real, actions: seq<Action>, t: State, service: real)
    requires Inv(s) && s.limit > 0 && service >= 0.0 && Prompt(s, service)
    requires s.now <= last && forall i | 0 <= i < |s.offsets| :: Scheduled(s, i) <= last
    requires PromptRun(s, actions, service) && WakesOnTime(s, actions) && Reaches(s, actions, t)
    requires t.now > last + RoundsTime(|s.offsets|, s.limit, service)
    ensures AllEnded(t)
    decreases |actions|
  {
    hide Inv, AllEnded, Prompt, PromptRun, Next, Scheduled, RoundsTime;
    if forall i | 0 <= i < |s.phases| :: !s.phases[i].Sleeping? {
      EverythingEnds(s, actions, t, service);
    } else {
      NextInv(s, actions[0]);
      RunStep(s, actions, t, service);
      StepPrompt(s, actions[0], service);
      StepBefore(s, actions[0], last);
      EndsAfterLast(Next(s, actions[0]), last, actions[1..], t, service);
    }
  }

  /** While somebody sleeps, the last scheduled time has not been passed. */
  lemma StepBefore(s: State, a: Action, last: real)
    requires QueueInRange(s) && s.now <= last && forall i | 0 <= i < |s.offsets| :: Scheduled(s, i) <= last
    requires exists i :: 0 <= i < |s.phases| && s.phases[i].Sleeping?
    requires a.Tick? && a.to > s.now ==> forall i | 0 <= i < |s.phases| && s.phases[i].Sleeping? :: a.to <= Scheduled(s, i)
    ensures Next(s, a).now <= last
    ensures Next(s, a).offsets == s.offsets && forall i | 0 <= i < |s.offsets| :: Scheduled(Next(s, a), i) <= last
  {
    var s' := Next(s, a);
    if a.Tick? && a.to > s.now {
      var i :| 0 <= i < |s.phases| && s.phases[i].Sleeping?;
      assert a.to <= Scheduled(s, i) <= last;
    }
    assert s'.offsets == s.offsets && s'.origin == s.origin;
    forall i | 0 <= i < |s.offsets| ensures Scheduled(s', i) <= last {
      assert Scheduled(s', i) == Scheduled(s, i);
    }
  }

  lemma {:induction false} OneEnds(s: State, actions: seq<Action>, t: State, i: nat, service: real)
    requires Inv(s) && s.limit > 0 && service >= 0.0 && Prompt(s, service)
    requires i < |s.phases| == |t.phases| && !s.phases[i].Sleeping?
    requires PromptRun(s, actions, service) && Reaches(s, actions, t)
    requires t.now > s.now + RoundsTime(|s.offsets|, s.limit, service)
    ensures t.phases[i].Ended?
  {
    hide *;
    PromptToEnd(s, actions, t, service);
    LateEnough(s.now, service, |s.offsets|, s.limit);
    DispatchedInTime(s, actions, t, i, service);
    ServedHasEnded(t, i, WaitBound(s.now, service, |s.offsets|, s.limit), service);
  }

  lemma SamePhases(s: State, actions: seq<Action>, t: State)
    requires Inv(s) && Reaches(s, actions, t)
    ensures Inv(t) && |t.phases| == |s.phases|
  {
    ReachesInv(s, actions, t);
    hide Reaches, PhaseOk;
  }

  lemma LateEnough(now: real, service: real, n: nat, limit: nat)
    requires limit > 0 && service >= 0.0
    ensures now + RoundsTime(n, limit, service) == WaitBound(now, service, n, limit) + service
  {
    DeadlineStep(now, service, n / limit + 2);
  }

  lemma ServedHasEnded(t: State, i: nat, bound: real, service: real)
    requires ServedBy(t, i, bound) && Prompt(t, service) && t.now > bound + service && service >= 0.0
    ensures t.phases[i].Ended?
  {
  }

  lemma StepPrompt(s: State, a: Action, service: real)
    requires Inv(s) && Prompt(s, service) && service >= 0.0
    requires a.Tick? && a.to > s.now ==> Prompt(Next(s, a), service)
    ensures Prompt(Next(s, a), service)
  {
    hide PhaseOk;
  }

  lemma {:induction false} PromptToEnd(s: State, actions: seq<Action>, t: State, service: real)
    requires Inv(s) && Prompt(s, service) && service >= 0.0
    requires PromptRun(s, actions, service) && Reaches(s, actions, t)
    ensures Prompt(t, service)
    decreases |actions|
  {
    if actions != [] {
      NextInv(s, actions[0]);
      StepPrompt(s, actions[0], service);
      hide Prompt, Inv;
      PromptToEnd(Next(s, actions[0]), actions[1..], t, service);
    }
  }

  lemma {:induction false} DispatchedInTime(s: State, actions: seq<Action>, t: State, i: nat, service: real)
    requires Inv(s) && s.limit > 0 && service >= 0.0 && i < |s.phases| && !s.phases[i].Sleeping?
    requires PromptRun(s, actions, service) && Reaches(s, actions, t)
    ensures ServedBy(t, i, WaitBound(s.now, service, |s.offsets|, s.limit))
  {
    hide *;
    if s.phases[i].Waiting? {
      var w := PlaceInQueue(s, i);
      QueueingBound(s, actions, t, i, w, service);
      BoundGrows(s.now, service, w, |s.offsets|, s.limit);
      ServedLater(t, i, WaitBound(s.now, service, w, s.limit), WaitBound(s.now, service, |s.offsets|, s.limit));
    } else {
      AlreadyServed(s, i, service);
      StaysServed(s, actions, t, i, WaitBound(s.now, service, |s.offsets|, s.limit), service);
    }
  }

  lemma ServedLater(t: State, i: nat, bound: real, later: real)
    requires ServedBy(t, i, bound) && bound <= later
    ensures ServedBy(t, i, later)
  {
  }

  lemma PlaceInQueue(s: State, i: nat) returns (w: nat)
    requires Inv(s) && i < |s.phases| && s.phases[i].Waiting?
    ensures w < |s.waiters| && s.waiters[w] == i && w <= |s.offsets|
  {
    QueueLength(s);
    hide PhaseOk;
    assert i in s.waiters;
    w :| 0 <= w < |s.waiters| && s.waiters[w] == i;
  }

  lemma AlreadyServed(s: State, i: nat, service: real)
    requires Inv(s) && s.limit > 0 && service >= 0.0
    requires i < |s.phases| && !s.phases[i].Sleeping? && !s.phases[i].Waiting?
    ensures ServedBy(s, i, WaitBound(s.now, service, |s.offsets|, s.limit))
  {
    assert PhaseOk(s, i);
    DeadlineAfterJoin(s.now, service, |s.offsets| / s.limit + 1);
  }

  lemma BoundGrows(now: real, service: real, w: nat, n: nat, limit: nat)
    requires w <= n && limit > 0 && service >= 0.0
    ensures WaitBound(now, service, w, limit) <= WaitBound(now, service, n, limit)
  {
    DivMonotone(w, n, limit);
    BoundMonotone(w / limit + 1, n / limit + 1, service);
  }

  lemma BoundMonotone(a: nat, b: nat, service: real)
    requires a <= b && service >= 0.0
    ensures a as real * service <= b as real * service
  {
  }

  lemma DivMonotone(a: nat, b: nat, d: nat)
    requires a <= b && d > 0
    ensures a / d <= b / d
  {
    var q, p := a / d, b / d + 1;
    assert q * d <= a;
    Rounds(b, d);
    FactorLess(q, p, d);
  }

  lemma FactorLess(x: nat, y: nat, d: nat)
    requires x * d < y * d
    ensures x < y
  {
  }

  /** There are no more waiters than requests. */
  lemma QueueLength(s: State)
    requires Inv(s)
    ensures |s.waiters| <= |s.offsets|
  {
    FrontSize(s, |s.waiters|);
    RangeBound(Front(s, |s.waiters|), |s.offsets|);
  }

  lemma {:induction false} RangeBound(xs: set<nat>, n: nat)
    requires forall x | x in xs :: x < n
    ensures |xs| <= n
  {
    if n == 0 {
      assert xs == {};
    } else {
      RangeBound(xs - {n - 1}, n - 1);
    }
  }
}
