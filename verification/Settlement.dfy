/** Canary settlement: plant a marker, poll the read path until it appears, report when it became visible. */
module Settlement {
  import opened Common
  import opened Reals

  type Session = string

  type Duration = d: real | d >= 0.0

  /** What one search did: the marker was in the context, was not, or the search raised. */
  datatype Outcome = Visible | Hidden | Raised

  /** A search that starts `lead` from now and takes `took`. */
  datatype Read = Read(lead: Duration, took: Duration, outcome: Outcome)

  /** One turn of the polling loop: the search, the time until the deadline is checked, the sleep. */
  datatype Round = Round(read: Read, check: Duration, sleep: Duration)

  /** A canary write that starts `lead` from now, takes `took`, and is accepted or raises. */
  datatype Planting = Planting(lead: Duration, took: Duration, accepted: bool)

  datatype Poll = Poll(start: real, observed: real, outcome: Outcome)

  datatype Cleanup = NotYet | Deleted | Skipped | CleanupFailed

  datatype SettlementError = NoCanary | AdapterError

  datatype SettlementResult = SettlementResult(settled: bool, timedOut: bool, polls: nat)

  // ---- poll histories ----------------------------------------------------

  /** When the history ends; an empty one ends where it began, at the acknowledgement. */
  function EndOf(ack: real, h: seq<Poll>): (t: real) {
    if h == [] then ack else h[|h| - 1].observed
  }

  /** Polls follow each other in time. */
  predicate WellTimed(ack: real, h: seq<Poll>) {
    h == [] ||
    (var front, last := h[..|h| - 1], h[|h| - 1];
     WellTimed(ack, front) && EndOf(ack, front) <= last.start <= last.observed)
  }

  /** Polling stops for good once the marker was seen. */
  predicate StopsWhenSeen(h: seq<Poll>) {
    forall k | 0 <= k < |h| - 1 :: !h[k].outcome.Visible?
  }

  function LastFailedAt(h: seq<Poll>): (k: Option<nat>)
    ensures k.Some? ==> k.value < |h| && h[k.value].outcome.Hidden?
    ensures forall i | 0 <= i < |h| && h[i].outcome.Hidden? :: k.Some? && i <= k.value
  {
    if h == [] then None
    else if h[|h| - 1].outcome.Hidden? then Some(|h| - 1)
    else LastFailedAt(h[..|h| - 1])
  }

  function LastFailed(h: seq<Poll>): (t: Option<real>) {
    if LastFailedAt(h).Some? then Some(h[LastFailedAt(h).value].observed) else None
  }

  function FirstVisible(h: seq<Poll>): (t: Option<real>) {
    if h != [] && h[|h| - 1].outcome.Visible? then Some(h[|h| - 1].observed) else None
  }

  /** The history of a canary acknowledged at `ack`, up to `now`. */
  predicate Recorded(ack: real, h: seq<Poll>, now: real) {
    WellTimed(ack, h) && StopsWhenSeen(h) && EndOf(ack, h) <= now
  }

  lemma {:induction false} TimesInOrder(ack: real, h: seq<Poll>, i: nat)
    requires WellTimed(ack, h) && i < |h|
    ensures ack <= h[i].start <= h[i].observed <= EndOf(ack, h)
    decreases |h|
  {
    var front := h[..|h| - 1];
    if i < |front| {
      TimesInOrder(ack, front, i);
      assert front[i] == h[i];
    } else if front != [] {
      TimesInOrder(ack, front, |front| - 1);
    }
  }

  lemma {:induction false} LaterStarts(ack: real, h: seq<Poll>, i: nat, j: nat)
    requires WellTimed(ack, h) && i < j < |h|
    ensures h[i].observed <= h[j].start
    decreases |h|
  {
    var front := h[..|h| - 1];
    if j < |front| {
      LaterStarts(ack, front, i, j);
      assert front[i] == h[i] && front[j] == h[j];
    } else {
      TimesInOrder(ack, front, i);
      assert front[i] == h[i];
    }
  }

  lemma AppendPoll(ack: real, h: seq<Poll>, now: real, p: Poll)
    requires Recorded(ack, h, now) && FirstVisible(h).None?
    requires now <= p.start <= p.observed
    ensures Recorded(ack, h + [p], p.observed)
    ensures FirstVisible(h + [p]) == if p.outcome.Visible? then Some(p.observed) else None
    ensures LastFailed(h + [p]) == if p.outcome.Hidden? then Some(p.observed) else LastFailed(h)
  {
    var g := h + [p];
    assert g[..|g| - 1] == h;
    assert LastFailedAt(h).Some? ==> g[LastFailedAt(h).value] == h[LastFailedAt(h).value];
  }

  // ---- the visibility law ------------------------------------------------

  /** The unknown moment inside each poll at which the search looked at the store. */
  ghost predicate ReadInstants(h: seq<Poll>, at: seq<real>) {
    |at| == |h| && forall k | 0 <= k < |h| :: h[k].start <= at[k] <= h[k].observed
  }

  /** The marker became visible at `v`, and stayed so. */
  ghost predicate Explains(v: real, h: seq<Poll>, at: seq<real>)
    requires ReadInstants(h, at)
  {
    forall k | 0 <= k < |h| ::
      && (h[k].outcome.Visible? ==> v <= at[k])
      && (h[k].outcome.Hidden? ==> at[k] < v)
  }

  /** The two reported bounds, as moments. */
  function LowerBound(ack: real, h: seq<Poll>): (t: real) {
    if LastFailed(h).Some? then LastFailed(h).value else ack
  }

  /** The upper bound is sound whatever the instants were; so is the start of the last failed poll as a
      lower bound, had it been recorded. */
  lemma AlwaysSound(ack: real, h: seq<Poll>, now: real, at: seq<real>, v: real)
    requires Recorded(ack, h, now) && ReadInstants(h, at) && Explains(v, h, at)
    ensures FirstVisible(h).Some? ==> Max(v, ack) <= FirstVisible(h).value
    ensures LastFailedAt(h).Some? ==> h[LastFailedAt(h).value].start < v
  {
    if FirstVisible(h).Some? {
      TimesInOrder(ack, h, |h| - 1);
    }
  }

  /** The recorded lower bound is the time after the last failed search, and that is sound for every
      possible true moment exactly when that search looked at the store at its very end. */
  lemma {:induction false} LowerBoundExactly(ack: real, h: seq<Poll>, now: real, at: seq<real>)
    requires Recorded(ack, h, now) && ReadInstants(h, at)
    ensures (forall v | Explains(v, h, at) :: LowerBound(ack, h) <= Max(v, ack))
       <==> (LastFailedAt(h).Some? ==> at[LastFailedAt(h).value] == h[LastFailedAt(h).value].observed)
  {
    if LastFailedAt(h).Some? {
      var f := LastFailedAt(h).value;
      if at[f] < h[f].observed {
        TimesInOrder(ack, h, f);
        var v := (Max(at[f], ack) + h[f].observed) / 2.0;
        MidpointExplains(ack, h, now, at, f, v);
        assert Explains(v, h, at) && LowerBound(ack, h) > Max(v, ack);
      }
    }
  }

  lemma {:induction false} MidpointExplains(ack: real, h: seq<Poll>, now: real, at: seq<real>, f: nat, v: real)
    requires Recorded(ack, h, now) && ReadInstants(h, at)
    requires LastFailedAt(h) == Some(f) && at[f] < v < h[f].observed
    ensures Explains(v, h, at)
  {
    forall k | 0 <= k < |h|
      ensures (h[k].outcome.Visible? ==> v <= at[k]) && (h[k].outcome.Hidden? ==> at[k] < v)
    {
      if k < f {
        LaterStarts(ack, h, k, f);
      } else if k > f {
        LaterStarts(ack, h, f, k);
      }
    }
  }

  /** With searches that look at the store at their very end, the true moment, no earlier than the
      acknowledgement, lies between the two reported bounds. */
  lemma AtomicReadsBracket(ack: real, h: seq<Poll>, now: real, at: seq<real>, v: real)
    requires Recorded(ack, h, now) && ReadInstants(h, at) && Explains(v, h, at)
    requires forall k | 0 <= k < |h| && h[k].outcome.Hidden? :: at[k] == h[k].observed
    ensures LowerBound(ack, h) <= Max(v, ack)
    ensures FirstVisible(h).Some? ==> Max(v, ack) <= FirstVisible(h).value
  {
    LowerBoundExactly(ack, h, now, at);
    AlwaysSound(ack, h, now, at, v);
  }

  /** A slow search: it looks at 1, the marker appears at 2, it returns at 3. The reported interval
      misses the true moment. */
  lemma SlowSearchMisleads()
    ensures var h := [Poll(0.0, 3.0, Hidden), Poll(4.0, 5.0, Visible)];
            && Recorded(0.0, h, 5.0) && ReadInstants(h, [1.0, 5.0]) && Explains(2.0, h, [1.0, 5.0])
            && LowerBound(0.0, h) == 3.0
  {
    var h := [Poll(0.0, 3.0, Hidden), Poll(4.0, 5.0, Visible)];
    var front := [h[0]];
    assert h[..|h| - 1] == front && front[..|front| - 1] == [];
    assert WellTimed(0.0, []) && EndOf(0.0, []) == 0.0;
    assert WellTimed(0.0, front) && EndOf(0.0, front) == 3.0;
    assert LastFailedAt([h[0]]) == Some(0);
  }

  // ---- canaries ----------------------------------------------------------

  class CanaryRecord {
    const submitted: real
    var acknowledged: Option<real>
    var polls: nat
    var lastFailed: Option<real>
    var firstRetrievable: Option<real>
    var settled: bool
    var timedOut: bool
    var cleanup: Cleanup
    ghost var history: seq<Poll>

    constructor (at: real)
      ensures submitted == at && acknowledged == None && polls == 0 && history == []
      ensures lastFailed == None && firstRetrievable == None && !settled && !timedOut && cleanup == NotYet
    {
      submitted := at;
      acknowledged, polls, history := None, 0, [];
      lastFailed, firstRetrievable, settled, timedOut, cleanup := None, None, false, false, NotYet;
    }

    /** An acknowledged canary whose fields are what its polls say. */
    ghost predicate Valid(now: real)
      reads this
    {
      && acknowledged.Some? && submitted <= acknowledged.value <= now
      && Recorded(acknowledged.value, history, now)
      && polls == |history|
      && lastFailed == LastFailed(history) && firstRetrievable == FirstVisible(history)
      && (settled <==> firstRetrievable.Some?)
    }

    /** One poll of a canary that is not settled. */
    method Observe(start: real, at: real, outcome: Outcome, ghost before: real)
      requires Valid(before) && !settled && before <= start <= at
      modifies this
      ensures Valid(at) && history == old(history) + [Poll(start, at, outcome)] && settled == outcome.Visible?
      ensures polls == old(polls) + 1
      ensures acknowledged == old(acknowledged) && timedOut == old(timedOut) && cleanup == old(cleanup)
    {
      polls := polls + 1;
      AppendPoll(acknowledged.value, history, before, Poll(start, at, outcome));
      history := history + [Poll(start, at, outcome)];
      match outcome {
        case Raised =>
        case Visible => settled, firstRetrievable := true, Some(at);
        case Hidden => lastFailed := Some(at);
      }
    }

    method Mark(timedOut: bool, cleanup: Cleanup, ghost now: real)
      requires Valid(now)
      modifies this`timedOut, this`cleanup
      ensures Valid(now) && this.timedOut == timedOut && this.cleanup == cleanup
    {
      this.timedOut, this.cleanup := timedOut, cleanup;
    }

    /** The reported visibility interval, in milliseconds after the acknowledgement. */
    function LagFields(): (r: (Option<real>, Option<real>))
      reads this
    {
      (if lastFailed.Some? then Ms(acknowledged, lastFailed) else Some(0.0), Ms(acknowledged, firstRetrievable))
    }
  }

  function Ms(a: Option<real>, b: Option<real>): (d: Option<real>) {
    if a.Some? && b.Some? then Some((b.value - a.value) * 1000.0) else None
  }

  /** Every canary, at every moment of every run. */
  lemma TimesOrdered(c: CanaryRecord, now: real)
    requires c.Valid(now)
    ensures c.submitted <= c.acknowledged.value
    ensures c.lastFailed.Some? ==> c.acknowledged.value <= c.lastFailed.value <= now
    ensures c.firstRetrievable.Some? ==> c.acknowledged.value <= c.firstRetrievable.value <= now
    ensures c.lastFailed.Some? && c.firstRetrievable.Some? ==> c.lastFailed.value <= c.firstRetrievable.value
    ensures c.settled <==> c.LagFields().1.Some?
    ensures c.LagFields().0.Some? && c.LagFields().0.value >= 0.0
    ensures c.settled ==> c.LagFields().0.value <= c.LagFields().1.value
  {
    var h, ack := c.history, c.acknowledged.value;
    if LastFailedAt(h).Some? {
      TimesInOrder(ack, h, LastFailedAt(h).value);
    }
    if FirstVisible(h).Some? {
      TimesInOrder(ack, h, |h| - 1);
    }
  }

  /** The reported interval, in milliseconds after the acknowledgement: it ends with the poll that saw the
      marker, and begins with the end of the last search that did not, or at the acknowledgement; it spans the
      two bounds of the visibility law. */
  lemma LagsExactly(c: CanaryRecord, now: real)
    requires c.Valid(now)
    ensures var ack, h, lags := c.acknowledged.value, c.history, c.LagFields();
            && lags.0 == Some((LowerBound(ack, h) - ack) * 1000.0)
            && (forall k | 0 <= k < |h| && h[k].outcome.Hidden? && (forall i | k < i < |h| :: !h[i].outcome.Hidden?) ::
                  lags.0 == Some((h[k].observed - ack) * 1000.0))
            && ((forall k | 0 <= k < |h| :: !h[k].outcome.Hidden?) ==> lags.0 == Some(0.0))
            && lags.1 == (if c.settled then Some((Last(h).observed - ack) * 1000.0) else None)
            && (c.settled <==> h != [] && Last(h).outcome.Visible?)
  {
    hide Recorded;
    var k := LastFailedAt(c.history);
  }

  // ---- bounding the polling loop -----------------------------------------

  /** The most polls one wait can make when each round takes at least `step`. */
  function PollBound(timeout: real, step: real): (n: nat)
    requires step > 0.0
  {
    if timeout > 0.0 then CeilNat(timeout / step) + 1 else 1
  }

  function CeilNat(x: real): (n: nat)
    requires x > 0.0
    ensures (n as real) - 1.0 < x <= n as real
  {
    Ceil(x)
  }

  lemma AtLeastOnePoll(timeout: real, step: real)
    requires step > 0.0
    ensures PollBound(timeout, step) >= 1
  {
  }

  /** The least time from the first check of a wait to the k-th. */
  function RoundsTake(k: nat, step: real): (t: real) {
    (k as real - 1.0) * step
  }

  lemma RoundsFit(k: nat, timeout: real, step: real)
    requires step > 0.0 && k > 0 && RoundsTake(k, step) < timeout
    ensures k < PollBound(timeout, step)
  {
    TimesPositive(0.0, k as real - 1.0, step);
    if k as real - 1.0 >= timeout / step {
      TimesPositive(timeout / step, k as real - 1.0, step);
      assert timeout / step * step == timeout;
    }
  }

  /** `made` polls since `before`; all but the last of them, or all of them, did not see the marker. */
  ghost predicate Polled(before: seq<Poll>, h: seq<Poll>, made: nat, all: bool) {
    && before <= h && |h| == |before| + made
    && forall k | |before| <= k < (if all then |h| else |h| - 1) :: h[k].outcome.Hidden?
  }

  lemma OneMorePoll(before: seq<Poll>, h: seq<Poll>, made: nat, p: Poll)
    requires Polled(before, h, made, true)
    ensures Polled(before, h + [p], made + 1, false)
    ensures p.outcome.Hidden? ==> Polled(before, h + [p], made + 1, true)
    ensures (h + [p])[|h + [p]| - 1] == p
  {
  }

  lemma OneMoreNone(before: seq<Poll>)
    ensures Polled(before, before, 0, true)
  {
  }

  function Last(h: seq<Poll>): (p: Poll)
    requires h != []
  {
    h[|h| - 1]
  }

  /** Between rounds: the latest check came before the deadline, and no sooner than the rounds allow. */
  predicate Between(entry: real, check: real, now: real, deadline: real, rounds: nat -> Round, made: nat, step: real)
    requires made > 0
  {
    && entry < deadline && check < deadline
    && now == check + rounds(made - 1).sleep && check >= entry + RoundsTake(made, step)
  }

  lemma NextCheck(entry: real, check: real, now: real, k: nat, step: real)
    requires k == 0 ==> now >= entry
    requires k > 0 ==> check >= entry + RoundsTake(k, step) && now >= check + step
    ensures now >= entry + RoundsTake(k + 1, step)
  {
  }

  // ---- the adapter -------------------------------------------------------

  /** The time from one deadline check to the next. */
  function RoundLength(rounds: nat -> Round, k: nat): (d: real) {
    rounds(k).sleep + rounds(k + 1).read.lead + rounds(k + 1).read.took + rounds(k + 1).check
  }

  /** When the first round of a wait that starts polling at `entry` checks the deadline. */
  function FirstCheck(rounds: nat -> Round, entry: real): (t: real) {
    entry + rounds(0).read.lead + rounds(0).read.took + rounds(0).check
  }

  /** The first poll of a wait decides it: it raised or saw the marker, or was over too late. */
  predicate OnePollDecides(rounds: nat -> Round, entry: real, deadline: real) {
    !rounds(0).read.outcome.Hidden? || FirstCheck(rounds, entry) >= deadline
  }

  /** The result of a wait whose last poll ended in `outcome`. */
  function ResultOf(outcome: Outcome, polls: nat): (r: Result<SettlementResult, SettlementError>) {
    match outcome
    case Raised => Failure(AdapterError)
    case Visible => Success(SettlementResult(true, false, polls))
    case Hidden => Success(SettlementResult(false, true, polls))
  }

  /** What the searches of `rounds` answer once the marker is deleted: none sees it. */
  function AfterDeletion(rounds: nat -> Round, deleted: bool): (r: nat -> Round) {
    (k: nat) => if deleted && rounds(k).read.outcome.Visible?
                then rounds(k).(read := rounds(k).read.(outcome := Hidden)) else rounds(k)
  }

  lemma DeletionKeepsLengths(rounds: nat -> Round, deleted: bool, k: nat)
    ensures RoundLength(AfterDeletion(rounds, deleted), k) == RoundLength(rounds, k)
    ensures deleted ==> !AfterDeletion(rounds, deleted)(k).read.outcome.Visible?
  {
  }

  class MemoryAdapter {
    var now: real
    var canaries: map<Session, CanaryRecord>
    const cleanUp: bool

    constructor (at: real, cleanUp: bool)
      ensures Valid() && now == at && canaries == map[] && this.cleanUp == cleanUp
    {
      now, canaries := at, map[];
      this.cleanUp := cleanUp;
    }

    ghost predicate Valid()
      reads this, canaries.Values
    {
      && (forall s | s in canaries :: canaries[s].Valid(now))
      && (forall s, t | s in canaries && t in canaries && s != t :: canaries[s] != canaries[t])
    }

    /** The canary of a session, if it has one. */
    ghost function Of(session: Session): (r: set<CanaryRecord>)
      reads this
    {
      if session in canaries then {canaries[session]} else {}
    }

    ghost predicate Pending(session: Session)
      reads this, canaries.Values
    {
      session in canaries && !canaries[session].settled
    }

    /** Time passes: a sleep, or the work between two statements. */
    method Pass(d: Duration)
      requires Valid()
      modifies this`now
      ensures Valid() && now == old(now) + d
    {
      hide WellTimed, StopsWhenSeen;
      now := now + d;
    }

    method PlantCanary(session: Session, p: Planting) returns (r: Result<CanaryRecord, SettlementError>)
      requires Valid()
      modifies this`now, this`canaries
      ensures Valid() && now == old(now) + p.lead + p.took
      ensures p.accepted ==>
                && r.Success? && fresh(r.value) && canaries == old(canaries)[session := r.value]
                && r.value.submitted == old(now) + p.lead && r.value.acknowledged == Some(now)
                && r.value.history == [] && r.value.polls == 0 && !r.value.settled && !r.value.timedOut && r.value.cleanup == NotYet
      ensures !p.accepted ==> r == Failure(AdapterError) && canaries == old(canaries)
    {
      now := now + p.lead;
      var rec := new CanaryRecord(now);
      now := now + p.took;
      if !p.accepted {
        return Failure(AdapterError);
      }
      rec.acknowledged := Some(now);
      canaries := canaries[session := rec];
      return Success(rec);
    }

    /** One poll, unless the canary is settled already: then nothing is read and nothing changes. */
    method IsSettled(session: Session, read: Read) returns (r: Result<bool, SettlementError>)
      requires Valid()
      modifies this`now, Of(session)
      ensures Valid() && now >= old(now)
      ensures session !in canaries ==> r == Failure(NoCanary) && now == old(now)
      ensures session in canaries && old(canaries[session].settled) ==>
                r == Success(true) && now == old(now) && unchanged(canaries[session])
      ensures old(Pending(session)) ==>
                var c := canaries[session];
                && now == old(now) + read.lead + read.took
                && c.history == old(c.history) + [Poll(old(now) + read.lead, now, read.outcome)]
                && r == (if read.outcome.Raised? then Failure(AdapterError) else Success(read.outcome.Visible?))
                && c.settled == read.outcome.Visible? && c.polls == old(c.polls) + 1
                && c.acknowledged == old(c.acknowledged) && c.timedOut == old(c.timedOut) && c.cleanup == old(c.cleanup)
    {
      if session !in canaries {
        return Failure(NoCanary);
      }
      var rec := canaries[session];
      if rec.settled {
        return Success(true);
      }
      var start := now + read.lead;
      now := start + read.took;
      hide Recorded;
      rec.Observe(start, now, read.outcome, old(now));
      r := if read.outcome.Raised? then Failure(AdapterError) else Success(read.outcome.Visible?);
    }

    /** The polling loop of a wait. Each round after the first takes at least `step`. */
    method PollUntil(session: Session, timeout: real, deadline: real, rounds: nat -> Round, ghost step: real)
      returns (r: Result<bool, SettlementError>, made: nat)
      requires Valid() && Pending(session) && deadline <= now + timeout
      requires step > 0.0 && forall k: nat :: RoundLength(rounds, k) >= step
      modifies this`now, Of(session)
      ensures Valid() && now >= old(now)
      ensures var c := canaries[session];
              && 1 <= made <= PollBound(timeout, step)
              && (made == 1 <==> OnePollDecides(rounds, old(now), deadline))
              && Polled(old(c.history), c.history, made, false)
              && Last(c.history).outcome == rounds(made - 1).read.outcome
              && (r == if Last(c.history).outcome.Raised? then Failure(AdapterError) else Success(c.settled))
              && (r == Success(false) ==> now >= deadline)
              && c.settled == Last(c.history).outcome.Visible? && c.polls == old(c.polls) + made
              && c.acknowledged == old(c.acknowledged) && c.timedOut == old(c.timedOut) && c.cleanup == old(c.cleanup)
    {
      hide PollBound, Polled, Recorded, Valid, CanaryRecord.Valid, RoundsTake;
      AtLeastOnePoll(timeout, step);
      var rec := canaries[session];
      ghost var before, entry, check := rec.history, now, now;
      made := 0;
      assert Polled(before, before, 0, true) by { OneMoreNone(before); }
      while true
        invariant Valid() && Pending(session) && Polled(before, rec.history, made, true) && now >= entry
        invariant made < PollBound(timeout, step) && rec.polls == old(rec.polls) + made
        invariant made > 0 ==> Between(entry, check, now, deadline, rounds, made, step)
        invariant made > 0 ==> !OnePollDecides(rounds, entry, deadline)
        invariant made == 0 ==> now == entry
        invariant rec.acknowledged == old(rec.acknowledged) && rec.timedOut == old(rec.timedOut) && rec.cleanup == old(rec.cleanup)
        decreases PollBound(timeout, step) - made
      {
        ghost var h := rec.history;
        r := IsSettled(session, rounds(made).read);
        OneMorePoll(before, h, made, Last(rec.history));
        var k := made;
        made := made + 1;
        if r.Failure? || r.value {
          break;
        }
        Pass(rounds(k).check);
        assert k == 0 ==> now == FirstCheck(rounds, entry);
        if now >= deadline {
          break;
        }
        assert k > 0 ==> RoundLength(rounds, k - 1) >= step;
        NextCheck(entry, check, now, k, step);
        check := now;
        RoundsFit(made, timeout, step);
        Pass(rounds(k).sleep);
      }
    }

    /** A session starts over; a failing reset leaves its canary pending. */
    method Reset(session: Session, took: Duration, done: bool) returns (r: Result<(), SettlementError>)
      requires Valid()
      modifies this`now, this`canaries
      ensures Valid() && now == old(now) + took
      ensures done ==> r == Success(()) && canaries == old(canaries) - {session}
      ensures !done ==> r == Failure(AdapterError) && canaries == old(canaries)
    {
      Pass(took);
      if !done {
        return Failure(AdapterError);
      }
      canaries := canaries - {session};
      return Success(());
    }

    /** The deadline of a wait that starts polling at `entry`; an acknowledgement at clock zero counts as none. */
    static function Deadline(acknowledged: Option<real>, timeout: real, entry: real): (t: real) {
      (if acknowledged.Some? && acknowledged.value != 0.0 then acknowledged.value else entry) + timeout
    }

    lemma PendingFacts(session: Session)
      requires Valid() && session in canaries
      ensures canaries[session].acknowledged.Some? && canaries[session].acknowledged.value <= now
    {
      hide Recorded;
    }

    /** The end of a wait: the outcome is recorded, and the marker is deleted if that is configured. */
    method CleanUp(session: Session, cleanup: Planting)
      requires Valid() && session in canaries
      modifies this`now, Of(session)
      ensures Valid() && now >= old(now)
      ensures var c := canaries[session];
              && c.settled == old(c.settled) && c.polls == old(c.polls)
              && c.history == old(c.history) && c.acknowledged == old(c.acknowledged)
      ensures canaries[session].timedOut == !canaries[session].settled
      ensures canaries[session].cleanup ==
                if !cleanUp then Skipped else if cleanup.accepted then Deleted else CleanupFailed
    {
      hide Recorded;
      var rec := canaries[session];
      rec.Mark(!rec.settled, rec.cleanup, now);
      if cleanUp {
        Pass(cleanup.lead);
        Pass(cleanup.took);
      }
      assert session in canaries && rec == canaries[session];
      rec.Mark(rec.timedOut, if !cleanUp then Skipped else if cleanup.accepted then Deleted else CleanupFailed, now);
    }

    /** One wait: plant a canary unless one is pending, poll until it is seen or the deadline has passed,
        clean up. A pending canary is polled again even if an earlier wait gave up on it and deleted it. */
    method WaitSettled(session: Session, planting: Planting, timeout: real, rounds: nat -> Round,
                       cleanup: Planting, ghost step: real)
      returns (r: Result<SettlementResult, SettlementError>, ghost made: nat)
      requires Valid()
      requires step > 0.0 && forall k: nat :: RoundLength(rounds, k) >= step
      modifies this`now, this`canaries, Of(session)
      ensures Valid() && now >= old(now)
      ensures old(Pending(session)) ==> canaries == old(canaries)
      ensures !old(Pending(session)) && !planting.accepted ==>
                r == Failure(AdapterError) && made == 0 && canaries == old(canaries)
                && forall s | s in canaries :: unchanged(canaries[s])
      ensures old(Pending(session)) || planting.accepted ==>
                && session in canaries && canaries == old(canaries)[session := canaries[session]]
                && WaitOutcome(session, timeout, rounds, cleanup, r, made, step)
      ensures !old(Pending(session)) && planting.accepted ==>
                fresh(canaries[session]) && canaries[session].polls == made
      ensures old(Pending(session)) ==>
                && canaries[session].polls == old(canaries[session].polls) + made
                && canaries[session].acknowledged == old(canaries[session].acknowledged)
      ensures old(Pending(session)) ==>
                (made == 1 <==>
                 OnePollDecides(rounds, old(now), Deadline(canaries[session].acknowledged, timeout, old(now))))
    {
      hide Recorded, PollBound, Valid, CanaryRecord.Valid, LastFailed, FirstVisible;
      made := 0;
      if session !in canaries || canaries[session].settled {
        var planted := PlantCanary(session, planting);
        if planted.Failure? {
          return Failure(planted.error), 0;
        }
      }
      var rec := canaries[session];
      PendingFacts(session);
      var seen;
      var deadline := Deadline(rec.acknowledged, timeout, now);
      seen, made := PollUntil(session, timeout, deadline, rounds, step);
      if seen.Failure? {
        return Failure(seen.error), made;
      }
      CleanUp(session, cleanup);
      return Success(SettlementResult(seen.value, !seen.value, rec.polls)), made;
    }

    ghost predicate WaitOutcome(session: Session, timeout: real, rounds: nat -> Round, cleanup: Planting,
                                r: Result<SettlementResult, SettlementError>, made: nat, step: real)
      reads this, canaries.Values
      requires session in canaries && step > 0.0
    {
      var c := canaries[session];
      && 1 <= made <= PollBound(timeout, step)
      && c.history != [] && Last(c.history).outcome == rounds(made - 1).read.outcome
      && c.settled == Last(c.history).outcome.Visible?
      && (r.Failure? <==> Last(c.history).outcome.Raised?)
      && (r.Failure? ==> r.error == AdapterError && !c.settled)
      && (r.Success? ==>
            && r.value == SettlementResult(c.settled, !c.settled, c.polls)
            && c.timedOut == !c.settled
            && c.cleanup == (if !cleanUp then Skipped else if cleanup.accepted then Deleted else CleanupFailed)
            && (!c.settled ==> c.acknowledged.Some? && now >= c.acknowledged.value + (if c.acknowledged.value != 0.0 then timeout else 0.0)))
    }

    /** A canary that a wait gave up on stays pending although its marker may have been deleted, and a
        second wait, however much later, polls that same canary. It polls exactly once if and only if that
        poll decides, which it always does when the second wait is no longer than the first and the
        acknowledgement was not at clock zero; and after a deletion it cannot settle, so it gives up too
        unless the search raises. */
    method WaitAgain(session: Session, planting: Planting, timeout: real, rounds: nat -> Round, cleanup: Planting,
                     pause: Duration, again: real, later: nat -> Round, cleanupAgain: Planting, ghost step: real)
      returns (first: Result<SettlementResult, SettlementError>, second: Option<Result<SettlementResult, SettlementError>>,
               ghost before: nat, ghost entry: real, ghost made: nat)
      requires Valid()
      requires step > 0.0 && forall k: nat :: RoundLength(rounds, k) >= step && RoundLength(later, k) >= step
      modifies this`now, this`canaries, Of(session)
      ensures Valid()
      ensures old(Pending(session)) || planting.accepted ==>
                && before >= 1
                && first == ResultOf(rounds(before - 1).read.outcome,
                                     (if old(Pending(session)) then old(canaries[session].polls) else 0) + before)
      ensures !old(Pending(session)) && !planting.accepted ==> first == Failure(AdapterError)
      ensures second.Some? <==> first.Success? && first.value.timedOut
      ensures second.Some? ==>
                var searches := AfterDeletion(later, cleanUp && cleanup.accepted);
                && session in canaries && entry >= old(now) + pause
                && SecondWait(canaries[session], searches, again, first.value.polls, second.value, entry, made)
                && (again <= timeout && canaries[session].acknowledged != Some(0.0) ==> made == 1)
                && (cleanUp && cleanup.accepted ==>
                      !canaries[session].settled && (second.value.Success? ==> second.value.value.timedOut))
    {
      hide Recorded, PollBound, Valid, CanaryRecord.Valid, SecondWait, OnePollDecides, WaitOutcome, AfterDeletion, RoundLength, ResultOf;
      first, before := FirstAttempt(session, planting, timeout, rounds, cleanup, step);
      second, entry, made := None, now, 0;
      if first.Success? && first.value.timedOut {
        Pass(pause);
        entry := now;
        var deleted := cleanUp && cleanup.accepted;
        forall k: nat ensures RoundLength(AfterDeletion(later, deleted), k) == RoundLength(later, k)
                      ensures deleted ==> !AfterDeletion(later, deleted)(k).read.outcome.Visible? {
          DeletionKeepsLengths(later, deleted, k);
        }
        var r;
        r, made := NextAttempt(session, planting, again, AfterDeletion(later, deleted), cleanupAgain, first.value.polls, step);
        second := Some(r);
        GaveUp(canaries[session], AfterDeletion(later, deleted), again, first.value.polls, r, timeout, entry, made);
      }
    }

    /** A wait that gave up has waited its time, and leaves the canary pending. */
    method FirstAttempt(session: Session, planting: Planting, timeout: real, rounds: nat -> Round, cleanup: Planting, ghost step: real)
      returns (r: Result<SettlementResult, SettlementError>, ghost made: nat)
      requires Valid()
      requires step > 0.0 && forall k: nat :: RoundLength(rounds, k) >= step
      modifies this`now, this`canaries, Of(session)
      ensures Valid() && now >= old(now)
      ensures session in canaries ==> canaries[session] in old(Of(session)) || fresh(canaries[session])
      ensures old(Pending(session)) || planting.accepted ==>
                && made >= 1
                && r == ResultOf(rounds(made - 1).read.outcome,
                                 (if old(Pending(session)) then old(canaries[session].polls) else 0) + made)
      ensures !old(Pending(session)) && !planting.accepted ==> r == Failure(AdapterError)
      ensures r.Success? && r.value.timedOut ==>
                && Pending(session) && canaries[session].polls == r.value.polls && canaries[session].acknowledged.Some?
                && (canaries[session].acknowledged != Some(0.0) ==> now >= canaries[session].acknowledged.value + timeout)
    {
      hide Recorded, PollBound, Valid, CanaryRecord.Valid, LastFailed, FirstVisible, Polled;
      r, made := WaitSettled(session, planting, timeout, rounds, cleanup, step);
    }

    method NextAttempt(session: Session, planting: Planting, again: real, rounds: nat -> Round, cleanup: Planting,
                       polls: nat, ghost step: real)
      returns (r: Result<SettlementResult, SettlementError>, ghost made: nat)
      requires Valid() && Pending(session) && canaries[session].polls == polls
      requires step > 0.0 && forall k: nat :: RoundLength(rounds, k) >= step
      modifies this`now, this`canaries, Of(session)
      ensures Valid() && canaries == old(canaries) && canaries[session].acknowledged == old(canaries[session].acknowledged)
      ensures SecondWait(canaries[session], rounds, again, polls, r, old(now), made)
    {
      hide Recorded, PollBound, Valid, CanaryRecord.Valid, LastFailed, FirstVisible, Polled, OnePollDecides;
      r, made := WaitSettled(session, planting, again, rounds, cleanup, step);
    }

    static lemma GaveUp(c: CanaryRecord, rounds: nat -> Round, again: real, polls: nat,
                        r: Result<SettlementResult, SettlementError>, timeout: real, entry: real, made: nat)
      requires SecondWait(c, rounds, again, polls, r, entry, made) && c.acknowledged.Some?
      requires c.acknowledged != Some(0.0) ==> entry >= c.acknowledged.value + timeout
      requires forall k: nat :: RoundLength(rounds, k) >= 0.0
      ensures made >= 1 && (again <= timeout && c.acknowledged != Some(0.0) ==> made == 1)
      ensures !rounds(made - 1).read.outcome.Visible? ==> !c.settled && (r.Success? ==> r.value.timedOut)
    {
    }

    /** What a second wait that starts polling at `entry` must come to. */
    static ghost predicate SecondWait(c: CanaryRecord, searches: nat -> Round, again: real, polls: nat,
                                      r: Result<SettlementResult, SettlementError>, entry: real, made: nat)
      reads c
    {
      && made >= 1 && c.polls == polls + made
      && (made == 1 <==> OnePollDecides(searches, entry, Deadline(c.acknowledged, again, entry)))
      && c.settled == searches(made - 1).read.outcome.Visible?
      && r == ResultOf(searches(made - 1).read.outcome, c.polls)
    }
  }
}
