/** The benchmark runner: one session as a trace of events, sessions stopped anywhere and resumed,
    and what analysis recomputes from the log. */
module BenchRun {
  import opened Common

  type QuestionId = string

  datatype Instance = Instance(id: QuestionId, qtype: string)

  datatype Tally = Tally(instances: nat, correct: nat, errors: nat)

  datatype Kind =
    | RunStart(runId: string, configurationId: string) | RunResume | CellSkipped
    | InstanceStart | IngestEnd | ContextRead | AnswerStart | AnswerEnd | JudgeStart
    | JudgeEnd(correct: bool) | ErrorSeen | InstanceEnd(verdict: Option<bool>, error: Option<string>)
    | RunEnd(tally: Tally)

  /** `question` and `qtype` come from the instance context of the runner when there is one. */
  datatype Event = Event(question: Option<QuestionId>, qtype: Option<string>, kind: Kind)

  datatype Stage = Ingesting | Retrieving | Answering | Judging

  /** What happens to an instance: it is judged, a stage raises an ordinary exception, the whole run is
      interrupted during a stage (cancellation, keyboard interrupt), or its very first event, which is
      written before any handler is in place, cannot be written. */
  datatype Fate = Judged(correct: bool) | Raises(at: Stage, error: string) | Interrupted(at: Stage) | Unstarted

  predicate EndsRun(fate: Fate, abort: bool) {
    fate.Interrupted? || fate.Unstarted? || (fate.Raises? && abort)
  }

  // ---- one instance ------------------------------------------------------

  function In(inst: Instance, kind: Kind): (e: Event) {
    Event(Some(inst.id), Some(inst.qtype), kind)
  }

  function Reached(inst: Instance, at: Stage): (r: seq<Event>) {
    match at
    case Ingesting => [In(inst, InstanceStart)]
    case Retrieving => [In(inst, InstanceStart), In(inst, IngestEnd)]
    case Answering => [In(inst, InstanceStart), In(inst, IngestEnd), In(inst, ContextRead), In(inst, AnswerStart)]
    case Judging => [In(inst, InstanceStart), In(inst, IngestEnd), In(inst, ContextRead), In(inst, AnswerStart),
                     In(inst, AnswerEnd), In(inst, JudgeStart)]
  }

  function InstanceTrace(inst: Instance, fate: Fate): (r: seq<Event>) {
    match fate
    case Judged(correct) =>
      Reached(inst, Judging) + [In(inst, JudgeEnd(correct)), In(inst, InstanceEnd(Some(correct), None))]
    case Raises(at, error) =>
      Reached(inst, at) + [In(inst, ErrorSeen), In(inst, InstanceEnd(None, Some(error)))]
    case Interrupted(at) => Reached(inst, at)
    case Unstarted => []
  }

  function Counted(t: Tally, fate: Fate): (r: Tally) {
    match fate
    case Judged(correct) => Tally(t.instances + 1, t.correct + (if correct then 1 else 0), t.errors)
    case Raises(_, _) => Tally(t.instances + 1, t.correct, t.errors + 1)
    case Interrupted(_) => t
    case Unstarted => t
  }

  // ---- one session -------------------------------------------------------

  datatype Progress = Progress(events: seq<Event>, tally: Tally, stopped: bool)

  const EMPTY_TALLY := Tally(0, 0, 0)

  function Advance(p: Progress, inst: Instance, fate: Fate, completed: set<QuestionId>, abort: bool): (r: Progress) {
    if p.stopped then p
    else if inst.id in completed then p.(events := p.events + [Event(Some(inst.id), None, CellSkipped)])
    else Progress(p.events + InstanceTrace(inst, fate), Counted(p.tally, fate),
                  EndsRun(fate, abort))
  }

  /** The session after its first `n` instances. */
  function After(insts: seq<Instance>, fates: seq<Fate>, completed: set<QuestionId>, abort: bool, n: nat): (r: Progress)
    requires n <= |insts| == |fates|
  {
    if n == 0 then Progress([], EMPTY_TALLY, false)
    else Advance(After(insts, fates, completed, abort, n - 1), insts[n - 1], fates[n - 1], completed, abort)
  }

  function Session(insts: seq<Instance>, fates: seq<Fate>, completed: set<QuestionId>, abort: bool): (r: Progress)
    requires |insts| == |fates|
  {
    After(insts, fates, completed, abort, |insts|)
  }

  function SessionTrace(insts: seq<Instance>, fates: seq<Fate>, completed: set<QuestionId>, abort: bool): (r: seq<Event>)
    requires |insts| == |fates|
  {
    var s := Session(insts, fates, completed, abort);
    s.events + [Event(None, None, RunEnd(s.tally))]
  }

  class Runner {
    const completed: set<QuestionId>
    const abort: bool
    var log: seq<Event>
    var tally: Tally
    var ctx: Option<Instance>

    constructor (log: seq<Event>, completed: set<QuestionId>, abort: bool)
      ensures this.log == log && this.completed == completed && this.abort == abort
      ensures tally == EMPTY_TALLY && ctx.None?
    {
      this.log, this.completed, this.abort := log, completed, abort;
      tally, ctx := EMPTY_TALLY, None;
    }

    method Emit(kind: Kind)
      modifies this`log
      ensures log == old(log) + [match ctx case None => Event(None, None, kind) case Some(inst) => In(inst, kind)]
    {
      log := log + [match ctx case None => Event(None, None, kind) case Some(inst) => In(inst, kind)];
    }

    /** Emits what a run up to `at` emits. */
    method EmitReached(at: Stage)
      requires ctx.Some?
      modifies this`log
      ensures log == old(log) + Reached(ctx.value, at)
    {
      Emit(InstanceStart);
      if at.Ingesting? { return; }
      Emit(IngestEnd);
      if at.Retrieving? { return; }
      Emit(ContextRead);
      Emit(AnswerStart);
      if at.Answering? { return; }
      Emit(AnswerEnd);
      Emit(JudgeStart);
    }

    /** Returns whether the exception, if any, leaves this method. */
    method RunInstance(inst: Instance, fate: Fate) returns (raised: bool)
      modifies this`log, this`tally, this`ctx
      ensures log == old(log) + InstanceTrace(inst, fate)
      ensures tally == Counted(old(tally), fate) && (ctx.None? <==> !fate.Unstarted?)
      ensures raised == EndsRun(fate, abort)
    {
      ctx := Some(inst);
      match fate {
        case Judged(correct) =>
          EmitReached(Judging);
          Emit(JudgeEnd(correct));
          tally := tally.(instances := tally.instances + 1, correct := tally.correct + (if correct then 1 else 0));
          Emit(InstanceEnd(Some(correct), None));
          raised := false;
        case Raises(at, error) =>
          EmitReached(at);
          tally := tally.(instances := tally.instances + 1, errors := tally.errors + 1);
          Emit(ErrorSeen);
          Emit(InstanceEnd(None, Some(error)));
          raised := abort;
        case Interrupted(at) =>
          EmitReached(at);
          raised := true;
        case Unstarted =>
          return true;
      }
      ctx := None;
    }

    method Run(insts: seq<Instance>, fates: seq<Fate>) returns (summary: Tally)
      requires |insts| == |fates| && tally == EMPTY_TALLY && ctx.None?
      modifies this
      ensures log == old(log) + SessionTrace(insts, fates, completed, abort)
      ensures tally == summary == Session(insts, fates, completed, abort).tally && ctx.None?
    {
      hide InstanceTrace, Counted;
      var pos := 0;
      while pos < |insts|
        invariant 0 <= pos <= |insts|
        invariant log == old(log) + After(insts, fates, completed, abort, pos).events
        invariant tally == After(insts, fates, completed, abort, pos).tally
        invariant !After(insts, fates, completed, abort, pos).stopped && ctx.None?
      {
        var inst := insts[pos];
        if inst.id in completed {
          log := log + [Event(Some(inst.id), None, CellSkipped)];
        } else {
          var raised := RunInstance(inst, fates[pos]);
          if raised {
            StaysStopped(insts, fates, completed, abort, pos + 1, |insts|);
            break;
          }
          if tally.errors > 0 && abort {
            ErrorsStop(insts, fates, completed, abort, pos + 1);
            assert false;
          }
        }
        pos := pos + 1;
      }
      summary := tally;
      ctx := None;
      Emit(RunEnd(summary));
    }
  }

  lemma {:induction false} StaysStopped(insts: seq<Instance>, fates: seq<Fate>, completed: set<QuestionId>, abort: bool, n: nat, m: nat)
    requires n <= m <= |insts| == |fates|
    requires After(insts, fates, completed, abort, n).stopped
    ensures After(insts, fates, completed, abort, m) == After(insts, fates, completed, abort, n)
    decreases m
  {
    if n < m {
      StaysStopped(insts, fates, completed, abort, n, m - 1);
    }
  }

  /** In abort mode the first error has already stopped the run: the check after an instance that
      returned normally never fires. */
  lemma {:induction false} ErrorsStop(insts: seq<Instance>, fates: seq<Fate>, completed: set<QuestionId>, abort: bool, n: nat)
    requires n <= |insts| == |fates|
    ensures var p := After(insts, fates, completed, abort, n); abort && !p.stopped ==> p.tally.errors == 0
  {
    if n > 0 {
      ErrorsStop(insts, fates, completed, abort, n - 1);
    }
  }

  // ---- counting ----------------------------------------------------------

  /** What analysis counts: JUDGE_END rows, correct ones, INSTANCE_END rows, those with and without error. */
  datatype Column = JudgedRows | CorrectRows | EndRows | ErroredRows | CleanRows

  predicate Counts(what: Column, k: Kind) {
    match what
    case JudgedRows => k.JudgeEnd?
    case CorrectRows => k.JudgeEnd? && k.correct
    case EndRows => k.InstanceEnd?
    case ErroredRows => k.InstanceEnd? && k.error.Some?
    case CleanRows => k.InstanceEnd? && k.error.None?
  }

  function Rows(log: seq<Event>, what: Column): (n: nat) {
    if log == [] then 0 else (if Counts(what, log[0].kind) then 1 else 0) + Rows(log[1..], what)
  }

  datatype Totals = Totals(judged: nat, correct: nat, ended: nat, errored: nat, clean: nat)

  function Accuracy(log: seq<Event>): (t: Totals) {
    Totals(Rows(log, JudgedRows), Rows(log, CorrectRows), Rows(log, EndRows), Rows(log, ErroredRows), Rows(log, CleanRows))
  }

  predicate IsCleanEnd(e: Event, q: QuestionId) {
    e.kind.InstanceEnd? && e.kind.error.None? && e.question == Some(q)
  }

  /** How many error-free INSTANCE_END events a question has. */
  function CleanEnds(log: seq<Event>, q: QuestionId): (n: nat) {
    if log == [] then 0 else (if IsCleanEnd(log[0], q) then 1 else 0) + CleanEnds(log[1..], q)
  }

  lemma {:induction false} RowsAppend(a: seq<Event>, b: seq<Event>, what: Column)
    ensures Rows(a + b, what) == Rows(a, what) + Rows(b, what)
  {
    hide Counts;
    if a == [] {
      assert a + b == b;
    } else {
      assert (a + b)[1..] == a[1..] + b;
      RowsAppend(a[1..], b, what);
    }
  }

  lemma {:induction false} CleanEndsAppend(a: seq<Event>, b: seq<Event>, q: QuestionId)
    ensures CleanEnds(a + b, q) == CleanEnds(a, q) + CleanEnds(b, q)
  {
    hide IsCleanEnd;
    if a == [] {
      assert a + b == b;
    } else {
      assert (a + b)[1..] == a[1..] + b;
      CleanEndsAppend(a[1..], b, q);
    }
  }

  predicate Uncounted(log: seq<Event>) {
    forall i | 0 <= i < |log| :: !log[i].kind.JudgeEnd? && !log[i].kind.InstanceEnd?
  }

  lemma {:induction false} RowsNone(log: seq<Event>, what: Column, q: QuestionId)
    requires Uncounted(log)
    ensures Rows(log, what) == 0 && CleanEnds(log, q) == 0
  {
    if log != [] {
      RowsNone(log[1..], what, q);
      assert !Counts(what, log[0].kind);
    }
  }

  lemma RowsOne(e: Event, what: Column, q: QuestionId)
    ensures Rows([e], what) == if Counts(what, e.kind) then 1 else 0
    ensures CleanEnds([e], q) == if IsCleanEnd(e, q) then 1 else 0
  {
    hide Counts, IsCleanEnd;
    assert [e][1..] == [];
  }

  lemma {:induction false} TwoMore(log: seq<Event>, e: Event, f: Event, what: Column, q: QuestionId)
    requires Uncounted(log)
    ensures Rows(log + [e, f], what) == (if Counts(what, e.kind) then 1 else 0) + (if Counts(what, f.kind) then 1 else 0)
    ensures CleanEnds(log + [e, f], q) == (if IsCleanEnd(e, q) then 1 else 0) + (if IsCleanEnd(f, q) then 1 else 0)
  {
    hide Counts, IsCleanEnd, Rows, CleanEnds, Uncounted;
    RowsNone(log, what, q);
    RowsOne(e, what, q);
    RowsOne(f, what, q);
    assert [e] + [f] == [e, f];
    RowsAppend([e], [f], what);
    CleanEndsAppend([e], [f], q);
    RowsAppend(log, [e, f], what);
    CleanEndsAppend(log, [e, f], q);
  }

  lemma ReachedUncounted(inst: Instance, at: Stage)
    ensures Uncounted(Reached(inst, at))
  {
  }

  lemma InstanceCounts(inst: Instance, fate: Fate, what: Column, q: QuestionId)
    ensures CleanEnds(InstanceTrace(inst, fate), q) == if fate.Judged? && inst.id == q then 1 else 0
    ensures Rows(InstanceTrace(inst, fate), what) == if FateCounts(fate, what) then 1 else 0
  {
    hide Rows, CleanEnds, Reached, Uncounted;
    match fate
    case Judged(c) =>
      ReachedUncounted(inst, Judging);
      TwoMore(Reached(inst, Judging), In(inst, JudgeEnd(c)), In(inst, InstanceEnd(Some(c), None)), what, q);
    case Raises(at, error) =>
      ReachedUncounted(inst, at);
      TwoMore(Reached(inst, at), In(inst, ErrorSeen), In(inst, InstanceEnd(None, Some(error))), what, q);
    case Interrupted(at) =>
      ReachedUncounted(inst, at);
      RowsNone(Reached(inst, at), what, q);
    case Unstarted =>
      RowsNone([], what, q);
  }

  predicate FateCounts(fate: Fate, what: Column) {
    match what
    case JudgedRows => fate.Judged?
    case CorrectRows => fate.Judged? && fate.correct
    case EndRows => fate.Judged? || fate.Raises?
    case ErroredRows => fate.Raises?
    case CleanRows => fate.Judged?
  }

  function TallyRows(t: Tally, what: Column): (n: int) {
    match what
    case JudgedRows => t.instances - t.errors
    case CorrectRows => t.correct
    case EndRows => t.instances
    case ErroredRows => t.errors
    case CleanRows => t.instances - t.errors
  }

  lemma CountedRows(t: Tally, fate: Fate, what: Column)
    ensures TallyRows(Counted(t, fate), what) == TallyRows(t, what) + if FateCounts(fate, what) then 1 else 0
  {
  }

  lemma RowsAdvance(p: Progress, inst: Instance, fate: Fate, completed: set<QuestionId>, abort: bool, what: Column)
    requires Rows(p.events, what) == TallyRows(p.tally, what)
    ensures var q := Advance(p, inst, fate, completed, abort); Rows(q.events, what) == TallyRows(q.tally, what)
  {
    hide Rows, InstanceTrace, Counted, TallyRows, FateCounts;
    var skipped := Event(Some(inst.id), None, CellSkipped);
    CountedRows(p.tally, fate, what);
    InstanceCounts(inst, fate, what, inst.id);
    RowsAppend(p.events, InstanceTrace(inst, fate), what);
    RowsOne(skipped, what, inst.id);
    RowsAppend(p.events, [skipped], what);
  }

  lemma {:induction false} ProgressAgrees(insts: seq<Instance>, fates: seq<Fate>, completed: set<QuestionId>, abort: bool, n: nat, what: Column)
    requires n <= |insts| == |fates|
    ensures var p := After(insts, fates, completed, abort, n); Rows(p.events, what) == TallyRows(p.tally, what)
  {
    if n > 0 {
      ProgressAgrees(insts, fates, completed, abort, n - 1, what);
      RowsAdvance(After(insts, fates, completed, abort, n - 1), insts[n - 1], fates[n - 1], completed, abort, what);
      hide Rows, Advance, TallyRows;
    }
  }

  lemma SessionRows(insts: seq<Instance>, fates: seq<Fate>, completed: set<QuestionId>, abort: bool, what: Column)
    requires |insts| == |fates|
    ensures Rows(SessionTrace(insts, fates, completed, abort), what)
            == TallyRows(Session(insts, fates, completed, abort).tally, what)
  {
    hide Rows, After;
    ProgressAgrees(insts, fates, completed, abort, |insts|, what);
    var s := Session(insts, fates, completed, abort);
    var last := Event(None, None, RunEnd(s.tally));
    RowsOne(last, what, "");
    RowsAppend(s.events, [last], what);
  }

  /** RUN_END's tally is what analysis recomputes from the session's own events, for every mix of
      failing stages, skipped cells and both error modes; judged + errored = instances. */
  lemma TallyAgrees(insts: seq<Instance>, fates: seq<Fate>, completed: set<QuestionId>, abort: bool)
    requires |insts| == |fates|
    ensures var t := Session(insts, fates, completed, abort).tally;
            var a := Accuracy(SessionTrace(insts, fates, completed, abort));
            && a.ended == t.instances && a.correct == t.correct && a.errored == t.errors
            && a.judged + a.errored == a.ended && a.judged == a.clean
    ensures var trace := SessionTrace(insts, fates, completed, abort);
            trace != [] && trace[|trace| - 1] == Event(None, None, RunEnd(Session(insts, fates, completed, abort).tally))
  {
    TraceEnds(insts, fates, completed, abort);
    hide SessionTrace, Session, Rows;
    SessionRows(insts, fates, completed, abort, JudgedRows);
    SessionRows(insts, fates, completed, abort, CorrectRows);
    SessionRows(insts, fates, completed, abort, EndRows);
    SessionRows(insts, fates, completed, abort, ErroredRows);
    SessionRows(insts, fates, completed, abort, CleanRows);
  }

  lemma TraceEnds(insts: seq<Instance>, fates: seq<Fate>, completed: set<QuestionId>, abort: bool)
    requires |insts| == |fates|
    ensures var trace := SessionTrace(insts, fates, completed, abort);
            trace != [] && trace[|trace| - 1] == Event(None, None, RunEnd(Session(insts, fates, completed, abort).tally))
  {
    hide Session;
  }

  /** The columns of the recomputed accuracy, as numbers of rows. */
  lemma AccuracyExactly(log: seq<Event>)
    ensures Accuracy(log).judged == |set i | 0 <= i < |log| && log[i].kind.JudgeEnd?|
    ensures Accuracy(log).correct == |set i | 0 <= i < |log| && log[i].kind.JudgeEnd? && log[i].kind.correct|
    ensures Accuracy(log).ended == |set i | 0 <= i < |log| && log[i].kind.InstanceEnd?|
    ensures Accuracy(log).errored == |set i | 0 <= i < |log| && log[i].kind.InstanceEnd? && log[i].kind.error.Some?|
    ensures Accuracy(log).clean == |set i | 0 <= i < |log| && log[i].kind.InstanceEnd? && log[i].kind.error.None?|
  {
    RowsAre(log, JudgedRows);
    RowsAre(log, CorrectRows);
    RowsAre(log, EndRows);
    RowsAre(log, ErroredRows);
    RowsAre(log, CleanRows);
    hide Rows;
    assert (set i | 0 <= i < |log| && log[i].kind.JudgeEnd?) == CountedAt(log, JudgedRows);
    assert (set i | 0 <= i < |log| && log[i].kind.JudgeEnd? && log[i].kind.correct) == CountedAt(log, CorrectRows);
    assert (set i | 0 <= i < |log| && log[i].kind.InstanceEnd?) == CountedAt(log, EndRows);
    assert (set i | 0 <= i < |log| && log[i].kind.InstanceEnd? && log[i].kind.error.Some?) == CountedAt(log, ErroredRows);
    assert (set i | 0 <= i < |log| && log[i].kind.InstanceEnd? && log[i].kind.error.None?) == CountedAt(log, CleanRows);
  }

  function CountedAt(log: seq<Event>, what: Column): (r: set<nat>) {
    set i | 0 <= i < |log| && Counts(what, log[i].kind)
  }

  lemma {:induction false} RowsAre(log: seq<Event>, what: Column)
    ensures Rows(log, what) == |CountedAt(log, what)|
    decreases |log|
  {
    if log != [] {
      var init, last := log[..|log| - 1], log[|log| - 1];
      RowsAre(init, what);
      assert log == init + [last];
      RowsAppend(init, [last], what);
      RowsOne(last, what, "");
      hide Counts, Rows;
      if Counts(what, last.kind) {
        assert CountedAt(log, what) == CountedAt(init, what) + {|init|};
      } else {
        assert CountedAt(log, what) == CountedAt(init, what);
      }
    }
  }

  // ---- what a session emits for each question ----------------------------

  /** The events of one question, in order. */
  function EventsOf(log: seq<Event>, q: QuestionId): (r: seq<Event>) {
    if log == [] then []
    else EventsOf(log[..|log| - 1], q) + (if log[|log| - 1].question == Some(q) then [log[|log| - 1]] else [])
  }

  lemma {:induction false} EventsOfAppend(a: seq<Event>, b: seq<Event>, q: QuestionId)
    ensures EventsOf(a + b, q) == EventsOf(a, q) + EventsOf(b, q)
    decreases |b|
  {
    if b == [] {
      assert a + b == a;
    } else {
      assert (a + b)[..|a + b| - 1] == a + b[..|b| - 1];
      EventsOfAppend(a, b[..|b| - 1], q);
    }
  }

  lemma {:induction false} EventsOfOne(log: seq<Event>, q: QuestionId, p: QuestionId)
    requires forall i | 0 <= i < |log| :: log[i].question == Some(p)
    ensures EventsOf(log, q) == if q == p then log else []
    decreases |log|
  {
    if log != [] {
      EventsOfOne(log[..|log| - 1], q, p);
      assert log == log[..|log| - 1] + [log[|log| - 1]];
    }
  }

  /** The events of a judged question, literally. */
  function FullCourse(correct: bool): (r: seq<Kind>) {
    [InstanceStart, IngestEnd, ContextRead, AnswerStart, AnswerEnd, JudgeStart, JudgeEnd(correct), InstanceEnd(Some(correct), None)]
  }

  /** How many of them are emitted when a stage does not come to its end. */
  function Before(at: Stage): (n: nat) {
    match at
    case Ingesting => 1
    case Retrieving => 2
    case Answering => 4
    case Judging => 6
  }

  /** What one question emits: all of the course with its verdict; or its beginning, up to the stage that
      failed, and then an error and an end without verdict; or just the beginning; or nothing. Every event is
      stamped with the question and its type. */
  lemma CourseExactly(inst: Instance, fate: Fate)
    ensures var trace := InstanceTrace(inst, fate);
            && (forall i | 0 <= i < |trace| :: trace[i].question == Some(inst.id) && trace[i].qtype == Some(inst.qtype))
            && match fate
               case Judged(correct) => Kinds(trace) == FullCourse(correct)
               case Raises(at, error) => Kinds(trace) == FullCourse(true)[..Before(at)] + [ErrorSeen, InstanceEnd(None, Some(error))]
               case Interrupted(at) => Kinds(trace) == FullCourse(true)[..Before(at)]
               case Unstarted => trace == []
  {
  }

  function Kinds(log: seq<Event>): (r: seq<Kind>) {
    seq(|log|, i requires 0 <= i < |log| => log[i].kind)
  }

  /** The session is over before instance n exactly when an earlier one that had to be run ended it. */
  lemma {:induction false} StoppedExactly(insts: seq<Instance>, fates: seq<Fate>, completed: set<QuestionId>, abort: bool, n: nat)
    requires n <= |insts| == |fates|
    ensures After(insts, fates, completed, abort, n).stopped <==>
              exists i | 0 <= i < n :: insts[i].id !in completed
                                       && (fates[i].Interrupted? || fates[i].Unstarted? || (fates[i].Raises? && abort))
  {
    if n > 0 {
      StoppedExactly(insts, fates, completed, abort, n - 1);
    }
  }

  /** What a session emits for a question: nothing when it was over before; one CELL_SKIPPED when the question
      is completed already; else the course of its fate. */
  lemma PerQuestion(insts: seq<Instance>, fates: seq<Fate>, completed: set<QuestionId>, abort: bool, i: nat)
    requires |insts| == |fates| && DistinctIds(insts) && i < |insts|
    ensures EventsOf(SessionTrace(insts, fates, completed, abort), insts[i].id)
            == Turn(After(insts, fates, completed, abort, i).stopped, insts[i], fates[i], completed)
  {
    var s := Session(insts, fates, completed, abort);
    OneQuestion(insts, fates, completed, abort, |insts|, i);
    EventsOfAppend(s.events, [Event(None, None, RunEnd(s.tally))], insts[i].id);
    hide InstanceTrace, Advance, After;
    assert [Event(None, None, RunEnd(s.tally))][..0] == [];
    assert EventsOf([Event(None, None, RunEnd(s.tally))], insts[i].id) == [];
  }

  function Turn(over: bool, inst: Instance, fate: Fate, completed: set<QuestionId>): (r: seq<Event>) {
    if over then []
    else if inst.id in completed then [Event(Some(inst.id), None, CellSkipped)]
    else InstanceTrace(inst, fate)
  }

  lemma AfterStep(insts: seq<Instance>, fates: seq<Fate>, completed: set<QuestionId>, abort: bool, n: nat)
    requires 0 < n <= |insts| == |fates|
    ensures After(insts, fates, completed, abort, n)
            == Advance(After(insts, fates, completed, abort, n - 1), insts[n - 1], fates[n - 1], completed, abort)
    ensures After(insts, fates, completed, abort, 0).events == []
  {
    hide Advance;
  }

  lemma {:induction false} OneQuestion(insts: seq<Instance>, fates: seq<Fate>, completed: set<QuestionId>, abort: bool, n: nat, i: nat)
    requires n <= |insts| == |fates| && DistinctIds(insts) && i < |insts|
    ensures EventsOf(After(insts, fates, completed, abort, n).events, insts[i].id)
            == if n <= i then [] else Turn(After(insts, fates, completed, abort, i).stopped, insts[i], fates[i], completed)
  {
    hide *;
    var q := insts[i].id;
    if n == 0 {
      NothingYet(insts, fates, completed, abort, q);
    } else {
      OtherId(insts, n - 1, i);
      OneQuestion(insts, fates, completed, abort, n - 1, i);
      AfterStep(insts, fates, completed, abort, n);
      OneAdvance(After(insts, fates, completed, abort, n - 1), insts[n - 1], fates[n - 1], completed, abort, q);
      var turn := Turn(After(insts, fates, completed, abort, i).stopped, insts[i], fates[i], completed);
      assert [] + turn == turn;
    }
  }

  lemma OtherId(insts: seq<Instance>, i: nat, j: nat)
    requires DistinctIds(insts) && i < |insts| && j < |insts|
    ensures insts[i].id == insts[j].id <==> i == j
  {
  }

  lemma NothingYet(insts: seq<Instance>, fates: seq<Fate>, completed: set<QuestionId>, abort: bool, q: QuestionId)
    requires |insts| == |fates|
    ensures EventsOf(After(insts, fates, completed, abort, 0).events, q) == []
  {
  }

  lemma OneAdvance(p: Progress, inst: Instance, fate: Fate, completed: set<QuestionId>, abort: bool, q: QuestionId)
    ensures EventsOf(Advance(p, inst, fate, completed, abort).events, q)
            == if inst.id == q then EventsOf(p.events, q) + Turn(p.stopped, inst, fate, completed) else EventsOf(p.events, q)
  {
    var added := Turn(p.stopped, inst, fate, completed);
    TurnEvents(p.stopped, inst, fate, completed);
    AdvanceEvents(p, inst, fate, completed, abort);
    hide *;
    EventsOfAppend(p.events, added, q);
    EventsOfOne(added, q, inst.id);
    assert EventsOf(p.events, q) + [] == EventsOf(p.events, q);
  }

  lemma TurnEvents(over: bool, inst: Instance, fate: Fate, completed: set<QuestionId>)
    ensures forall i | 0 <= i < |Turn(over, inst, fate, completed)| :: Turn(over, inst, fate, completed)[i].question == Some(inst.id)
  {
    CourseExactly(inst, fate);
    hide InstanceTrace;
  }

  lemma AdvanceEvents(p: Progress, inst: Instance, fate: Fate, completed: set<QuestionId>, abort: bool)
    ensures Advance(p, inst, fate, completed, abort).events == p.events + Turn(p.stopped, inst, fate, completed)
  {
    hide InstanceTrace, Counted;
    assert p.events + [] == p.events;
  }

  // ---- trace grammar -----------------------------------------------------

  /** Between events a well-formed log is idle or inside one instance. */
  datatype Place = Idle | Inside(q: QuestionId) | Broken

  function Move(p: Place, e: Event): (r: Place) {
    match p
    case Broken => Broken
    case Idle =>
      if e.kind.InstanceStart? && e.question.Some? then Inside(e.question.value)
      else if e.kind.CellSkipped? || e.kind.RunStart? || e.kind.RunResume? || e.kind.RunEnd? then Idle
      else Broken
    case Inside(q) =>
      if e.question != Some(q) then Broken
      else if e.kind.InstanceEnd? then Idle
      else if e.kind.InstanceStart? || e.kind.CellSkipped? || e.kind.RunStart? || e.kind.RunResume? || e.kind.RunEnd? then Broken
      else Inside(q)
  }

  function Walk(p: Place, log: seq<Event>): (r: Place)
    decreases |log|
  {
    if log == [] then p else Walk(Move(p, log[0]), log[1..])
  }

  lemma {:induction false} WalkAppend(p: Place, a: seq<Event>, b: seq<Event>)
    ensures Walk(p, a + b) == Walk(Walk(p, a), b)
    decreases |a|
  {
    hide Move;
    if a == [] {
      assert a + b == b;
    } else {
      assert (a + b)[1..] == a[1..] + b;
      WalkAppend(Move(p, a[0]), a[1..], b);
    }
  }

  lemma {:induction false} WalkInside(inst: Instance, log: seq<Event>)
    requires forall i | 0 <= i < |log| ::
               log[i].question == Some(inst.id) && !log[i].kind.InstanceEnd? && !log[i].kind.InstanceStart?
               && !log[i].kind.CellSkipped? && !log[i].kind.RunStart? && !log[i].kind.RunResume? && !log[i].kind.RunEnd?
    ensures Walk(Inside(inst.id), log) == Inside(inst.id)
  {
    if log != [] {
      WalkInside(inst, log[1..]);
    }
  }

  lemma WalkReached(inst: Instance, at: Stage)
    ensures Walk(Idle, Reached(inst, at)) == Inside(inst.id)
  {
    WalkInside(inst, Reached(inst, at)[1..]);
  }

  lemma WalkClosing(inst: Instance, e: Event, last: Event)
    requires e == In(inst, e.kind) && (e.kind.JudgeEnd? || e.kind.ErrorSeen?)
    requires last == In(inst, last.kind) && last.kind.InstanceEnd?
    ensures Walk(Inside(inst.id), [e, last]) == Idle
  {
    assert [e, last][1..] == [last] && [last][1..] == [];
    assert Walk(Inside(inst.id), [last]) == Idle;
  }

  lemma WalkInstance(inst: Instance, fate: Fate)
    ensures Walk(Idle, InstanceTrace(inst, fate)) == if fate.Interrupted? then Inside(inst.id) else Idle
  {
    hide Walk, Reached;
    match fate
    case Judged(c) =>
      var e, last := In(inst, JudgeEnd(c)), In(inst, InstanceEnd(Some(c), None));
      WalkReached(inst, Judging);
      WalkClosing(inst, e, last);
      WalkAppend(Idle, Reached(inst, Judging), [e, last]);
    case Raises(at, error) =>
      var e, last := In(inst, ErrorSeen), In(inst, InstanceEnd(None, Some(error)));
      WalkReached(inst, at);
      WalkClosing(inst, e, last);
      WalkAppend(Idle, Reached(inst, at), [e, last]);
    case Interrupted(at) => WalkReached(inst, at);
    case Unstarted => WalkNothing(Idle);
  }

  lemma WalkNothing(p: Place)
    ensures Walk(p, []) == p
  {
  }

  /** Some instance that was actually run was interrupted. */
  predicate WasInterrupted(insts: seq<Instance>, fates: seq<Fate>, completed: set<QuestionId>, abort: bool)
    requires |insts| == |fates|
  {
    exists i | 0 <= i < |insts| :: RunsInterrupted(insts, fates, completed, abort, i)
  }

  predicate RunsInterrupted(insts: seq<Instance>, fates: seq<Fate>, completed: set<QuestionId>, abort: bool, i: nat)
    requires i < |insts| == |fates|
  {
    fates[i].Interrupted? && insts[i].id !in completed && !After(insts, fates, completed, abort, i).stopped
  }

  lemma {:induction false} WalkProgress(insts: seq<Instance>, fates: seq<Fate>, completed: set<QuestionId>, abort: bool, n: nat)
    requires n <= |insts| == |fates|
    ensures var p, w := After(insts, fates, completed, abort, n), Walk(Idle, After(insts, fates, completed, abort, n).events);
            && (w == Idle <==> !exists i | 0 <= i < n :: RunsInterrupted(insts, fates, completed, abort, i))
            && (w != Idle ==> w.Inside? && p.stopped)
  {
    if n > 0 {
      WalkProgress(insts, fates, completed, abort, n - 1);
      var p, inst, fate := After(insts, fates, completed, abort, n - 1), insts[n - 1], fates[n - 1];
      hide RunsInterrupted;
      assert RunsInterrupted(insts, fates, completed, abort, n - 1) <==> fate.Interrupted? && inst.id !in completed && !p.stopped by {
        InterruptedNow(insts, fates, completed, abort, n - 1);
      }
      WalkInstance(inst, fate);
      WalkAppend(Idle, p.events, InstanceTrace(inst, fate));
      var skipped := [Event(Some(inst.id), None, CellSkipped)];
      WalkAppend(Idle, p.events, skipped);
      assert Walk(Idle, skipped) == Walk(Idle, skipped[1..]) == Idle;
    }
  }

  lemma InterruptedNow(insts: seq<Instance>, fates: seq<Fate>, completed: set<QuestionId>, abort: bool, i: nat)
    requires i < |insts| == |fates|
    ensures RunsInterrupted(insts, fates, completed, abort, i)
            <==> fates[i].Interrupted? && insts[i].id !in completed && !After(insts, fates, completed, abort, i).stopped
  {
  }

  /** A session's trace is properly nested, every INSTANCE_START closed by one INSTANCE_END of the
      same question before the next one and before RUN_END, exactly when it was not interrupted. */
  lemma GrammarExactly(insts: seq<Instance>, fates: seq<Fate>, completed: set<QuestionId>, abort: bool)
    requires |insts| == |fates|
    ensures Walk(Idle, SessionTrace(insts, fates, completed, abort)) == Idle
            <==> !WasInterrupted(insts, fates, completed, abort)
  {
    WalkProgress(insts, fates, completed, abort, |insts|);
    var s := Session(insts, fates, completed, abort);
    var last := [Event(None, None, RunEnd(s.tally))];
    WalkAppend(Idle, s.events, last);
    assert last[1..] == [];
    assert Walk(Walk(Idle, s.events), last) == Move(Walk(Idle, s.events), last[0]);
  }

  // ---- crash and resume --------------------------------------------------

  datatype OpenError = AlreadyExists | NoRunStart | RunMismatch | ConfigurationMismatch

  function Starts(log: seq<Event>): (r: seq<Kind>)
    ensures forall i | 0 <= i < |r| :: r[i].RunStart?
  {
    if log == [] then []
    else (if log[0].kind.RunStart? then [log[0].kind] else []) + Starts(log[1..])
  }

  function Done(log: seq<Event>): (r: set<QuestionId>) {
    set e | e in log && e.kind.InstanceEnd? && e.kind.error.None? && e.question.Some? :: e.question.value
  }

  /** `completed_cells`; None stands for a log file that does not exist. */
  function CompletedCells(log: Option<seq<Event>>, runId: string, configurationId: string): (r: Result<set<QuestionId>, OpenError>) {
    if log.None? then Success({})
    else
      var starts := Starts(log.value);
      if starts == [] then Failure(NoRunStart)
      else if starts[0].runId != runId then Failure(RunMismatch)
      else if starts[0].configurationId != configurationId then Failure(ConfigurationMismatch)
      else Success(Done(log.value))
  }

  /** One attempt at the run: fresh or resumed, with its own selection and fates, stopped after
      `cut` of its events (or not at all, when `cut` is large enough). */
  datatype Attempt = Attempt(
    resume: bool, runId: string, configurationId: string,
    insts: seq<Instance>, fates: seq<Fate>, abort: bool, cut: nat)

  predicate WellFormed(a: Attempt) {
    |a.insts| == |a.fates|
  }

  /** The guard of the constructor: a fresh run needs an empty log, a resume a matching one. */
  function Admitted(log: Option<seq<Event>>, a: Attempt): (r: Result<set<QuestionId>, OpenError>) {
    if a.resume then CompletedCells(log, a.runId, a.configurationId)
    else if log.Some? && log.value != [] then Failure(AlreadyExists)
    else Success({})
  }

  function FullTrace(a: Attempt, completed: set<QuestionId>): (r: seq<Event>)
    requires WellFormed(a)
  {
    [Event(None, None, if a.resume then RunResume else RunStart(a.runId, a.configurationId))]
    + SessionTrace(a.insts, a.fates, completed, a.abort)
  }

  function Cut(events: seq<Event>, k: nat): (r: seq<Event>) {
    if k < |events| then events[..k] else events
  }

  function Written(log: Option<seq<Event>>): (r: seq<Event>) {
    if log.None? then [] else log.value
  }

  function Perform(log: Option<seq<Event>>, a: Attempt): (r: Option<seq<Event>>)
    requires WellFormed(a)
  {
    match Admitted(log, a)
    case Failure(_) => log
    case Success(completed) => Some(Written(log) + Cut(FullTrace(a, completed), a.cut))
  }

  function Campaign(attempts: seq<Attempt>): (log: Option<seq<Event>>)
    requires forall i | 0 <= i < |attempts| :: WellFormed(attempts[i])
  {
    if attempts == [] then None
    else Perform(Campaign(attempts[..|attempts| - 1]), attempts[|attempts| - 1])
  }

  predicate DistinctIds(insts: seq<Instance>) {
    forall i, j | 0 <= i < j < |insts| :: insts[i].id != insts[j].id
  }

  lemma {:induction false} CleanProgress(insts: seq<Instance>, fates: seq<Fate>, completed: set<QuestionId>, abort: bool, n: nat, q: QuestionId)
    requires n <= |insts| == |fates| && DistinctIds(insts)
    ensures var c := CleanEnds(After(insts, fates, completed, abort, n).events, q);
            && c <= 1
            && (c == 1 ==> q !in completed && exists i | 0 <= i < n :: insts[i].id == q)
  {
    if n > 0 {
      CleanProgress(insts, fates, completed, abort, n - 1, q);
      CleanAdvance(insts, fates, completed, abort, n, q);
    }
  }

  /** What one more instance adds to the clean ends of a question. */
  lemma CleanAdvance(insts: seq<Instance>, fates: seq<Fate>, completed: set<QuestionId>, abort: bool, n: nat, q: QuestionId)
    requires 0 < n <= |insts| == |fates|
    ensures var p := After(insts, fates, completed, abort, n - 1);
            CleanEnds(After(insts, fates, completed, abort, n).events, q)
            == CleanEnds(p.events, q)
               + (if !p.stopped && insts[n - 1].id == q && q !in completed && fates[n - 1].Judged? then 1 else 0)
  {
    hide CleanEnds, InstanceTrace;
    var p, inst, fate := After(insts, fates, completed, abort, n - 1), insts[n - 1], fates[n - 1];
    InstanceCounts(inst, fate, CleanRows, q);
    CleanEndsAppend(p.events, InstanceTrace(inst, fate), q);
    var skipped := Event(Some(inst.id), None, CellSkipped);
    RowsOne(skipped, CleanRows, q);
    CleanEndsAppend(p.events, [skipped], q);
  }

  lemma CleanSession(insts: seq<Instance>, fates: seq<Fate>, completed: set<QuestionId>, abort: bool, q: QuestionId)
    requires |insts| == |fates|
    ensures CleanEnds(SessionTrace(insts, fates, completed, abort), q)
            == CleanEnds(Session(insts, fates, completed, abort).events, q)
  {
    var s := Session(insts, fates, completed, abort);
    var last := [Event(None, None, RunEnd(s.tally))];
    RowsNone(last, CleanRows, q);
    CleanEndsAppend(s.events, last, q);
  }

  lemma CutAddsNoMore(events: seq<Event>, k: nat, q: QuestionId)
    ensures CleanEnds(Cut(events, k), q) <= CleanEnds(events, q)
  {
    if k < |events| {
      CleanEndsAppend(events[..k], events[k..], q);
      assert events == events[..k] + events[k..];
    }
  }

  lemma FullTraceClean(a: Attempt, completed: set<QuestionId>, q: QuestionId)
    requires WellFormed(a)
    ensures CleanEnds(FullTrace(a, completed), q) == CleanEnds(Session(a.insts, a.fates, completed, a.abort).events, q)
  {
    var first := [Event(None, None, if a.resume then RunResume else RunStart(a.runId, a.configurationId))];
    RowsNone(first, CleanRows, q);
    CleanEndsAppend(first, SessionTrace(a.insts, a.fates, completed, a.abort), q);
    CleanSession(a.insts, a.fates, completed, a.abort, q);
  }

  lemma {:induction false} DoneCounts(log: seq<Event>, q: QuestionId)
    ensures q in Done(log) <==> CleanEnds(log, q) >= 1
  {
    if log != [] {
      DoneCounts(log[1..], q);
      assert log == [log[0]] + log[1..];
      assert forall e :: e in log <==> e == log[0] || e in log[1..];
    }
  }

  /** Event k is the first RUN_START of the log, of this run and configuration. */
  predicate FirstStart(log: seq<Event>, k: nat, runId: string, configurationId: string) {
    && k < |log| && log[k].kind == RunStart(runId, configurationId)
    && forall i | 0 <= i < k :: !log[i].kind.RunStart?
  }

  /** When an attempt is admitted: a fresh one when there is no log or an empty one; a resume when there is no
      log, or the log's first RUN_START is of this very run and configuration. And what it then skips:
      nothing, or the questions with an error-free end. */
  lemma AdmittedExactly(log: Option<seq<Event>>, a: Attempt)
    ensures Admitted(log, a).Success? <==>
              if a.resume then log.None? || exists k: nat :: FirstStart(log.value, k, a.runId, a.configurationId)
              else log.None? || log.value == []
    ensures Admitted(log, a).Success? ==>
              forall q :: q in Admitted(log, a).value <==> a.resume && CleanEnds(Written(log), q) >= 1
    ensures !a.resume && Admitted(log, a).Failure? ==> Admitted(log, a).error == AlreadyExists
    ensures a.resume && Admitted(log, a).Failure? ==>
              Admitted(log, a).error == (if forall i | 0 <= i < |log.value| :: !log.value[i].kind.RunStart? then NoRunStart
                                         else if forall k: nat, c :: !FirstStart(log.value, k, a.runId, c) then RunMismatch
                                         else ConfigurationMismatch)
  {
    if log.Some? {
      var k := FirstOfStarts(log.value);
      forall q ensures q in Done(log.value) <==> CleanEnds(log.value, q) >= 1 {
        DoneCounts(log.value, q);
      }
      if k < |log.value| {
        assert FirstStart(log.value, k, log.value[k].kind.runId, log.value[k].kind.configurationId);
      }
      hide Starts, Done, CleanEnds;
    } else {
      assert forall q :: CleanEnds([], q) == 0;
    }
  }

  lemma {:induction false} FirstOfStarts(log: seq<Event>) returns (k: nat)
    ensures k <= |log| && forall i | 0 <= i < k :: !log[i].kind.RunStart?
    ensures if k == |log| then Starts(log) == [] else log[k].kind.RunStart? && Starts(log) != [] && Starts(log)[0] == log[k].kind
  {
    k := 0;
    if log != [] && !log[0].kind.RunStart? {
      var rest := FirstOfStarts(log[1..]);
      k := rest + 1;
      assert forall i | 0 < i < k :: log[i] == log[1..][i - 1];
    }
  }

  /** A run that has been started once, and written anything, can be resumed under its own ids and no others. */
  lemma ResumeFindsItsRun(a: Attempt, b: Attempt)
    requires WellFormed(a) && !a.resume && a.cut > 0 && b.resume
    ensures Admitted(Perform(None, a), b).Success? <==> b.runId == a.runId && b.configurationId == a.configurationId
  {
    var trace := FullTrace(a, {});
    var log := Cut(trace, a.cut);
    assert trace[0].kind == RunStart(a.runId, a.configurationId);
    assert log[0] == trace[0] && [] + log == log;
    hide FullTrace;
    AdmittedExactly(Some(log), b);
    if b.runId == a.runId && b.configurationId == a.configurationId {
      assert FirstStart(log, 0, b.runId, b.configurationId);
    }
    hide Admitted, Cut;
  }

  /** Exactly once under crash and resume. Over any sequence of attempts, fresh or resumed, admitted
      or refused, each stopped at any event boundary, no question has two error-free ends in the log,
      as long as each attempt selects distinct questions. */
  lemma {:induction false} AtMostOnce(attempts: seq<Attempt>, q: QuestionId)
    requires forall i | 0 <= i < |attempts| :: WellFormed(attempts[i]) && DistinctIds(attempts[i].insts)
    ensures CleanEnds(Written(Campaign(attempts)), q) <= 1
    decreases |attempts|
  {
    if attempts != [] {
      var before, a := attempts[..|attempts| - 1], attempts[|attempts| - 1];
      AtMostOnce(before, q);
      PerformAddsOnce(Campaign(before), a, q);
    }
  }

  lemma PerformAddsOnce(log: Option<seq<Event>>, a: Attempt, q: QuestionId)
    requires WellFormed(a) && DistinctIds(a.insts) && CleanEnds(Written(log), q) <= 1
    ensures CleanEnds(Written(Perform(log, a)), q) <= 1
  {
    match Admitted(log, a)
    case Failure(_) =>
    case Success(completed) =>
      var trace := FullTrace(a, completed);
      CleanEndsAppend(Written(log), Cut(trace, a.cut), q);
      CutAddsNoMore(trace, a.cut, q);
      FullTraceClean(a, completed, q);
      CleanProgress(a.insts, a.fates, completed, a.abort, |a.insts|, q);
      DoneCounts(Written(log), q);
  }

  /** The distinctness of the selected ids is exactly what is needed: if a selection repeats a
      question, an undisturbed fresh run completes that question twice. */
  lemma DistinctnessExactly(insts: seq<Instance>)
    ensures DistinctIds(insts)
            <==> forall fates: seq<Fate>, abort, q | |fates| == |insts| ::
                   CleanEnds(SessionTrace(insts, fates, {}, abort), q) <= 1
  {
    if DistinctIds(insts) {
      forall fates: seq<Fate>, abort, q | |fates| == |insts|
        ensures CleanEnds(SessionTrace(insts, fates, {}, abort), q) <= 1
      {
        CleanSession(insts, fates, {}, abort, q);
        CleanProgress(insts, fates, {}, abort, |insts|, q);
      }
    } else {
      var i, j :| 0 <= i < j < |insts| && insts[i].id == insts[j].id;
      var fates := seq(|insts|, _ => Judged(true));
      CleanAll(insts, fates, i, j, |insts|);
      CleanSession(insts, fates, {}, false, insts[i].id);
      assert CleanEnds(SessionTrace(insts, fates, {}, false), insts[i].id) >= 2;
    }
  }

  lemma JudgedGoesOn(p: Progress, inst: Instance)
    ensures Advance(p, inst, Judged(true), {}, false).stopped == p.stopped
  {
  }

  lemma {:induction false} CleanAll(insts: seq<Instance>, fates: seq<Fate>, i: nat, j: nat, n: nat)
    requires i < j < |insts| && n <= |insts| == |fates| && insts[i].id == insts[j].id
    requires forall k | 0 <= k < |fates| :: fates[k] == Judged(true)
    ensures var p := After(insts, fates, {}, false, n);
            !p.stopped && CleanEnds(p.events, insts[i].id) >= (if i < n then 1 else 0) + (if j < n then 1 else 0)
  {
    hide CleanEnds, Advance, InstanceTrace;
    if n > 0 {
      CleanAll(insts, fates, i, j, n - 1);
      CleanAdvance(insts, fates, {}, false, n, insts[i].id);
      JudgedGoesOn(After(insts, fates, {}, false, n - 1), insts[n - 1]);
    } else {
      assert CleanEnds([], insts[i].id) >= 0;
    }
  }

  /** The log only ever extends, so the set of completed questions only grows. */
  lemma CompletedGrows(log: Option<seq<Event>>, a: Attempt)
    requires WellFormed(a)
    ensures Written(log) <= Written(Perform(log, a))
    ensures Done(Written(log)) <= Done(Written(Perform(log, a)))
  {
    assert forall e | e in Written(log) :: e in Written(Perform(log, a));
  }

  lemma {:induction false} AllClean(insts: seq<Instance>, fates: seq<Fate>, completed: set<QuestionId>, abort: bool, n: nat, i: nat)
    requires i < n <= |insts| == |fates| && insts[i].id !in completed
    requires var p := After(insts, fates, completed, abort, n); p.tally.errors == 0 && !p.stopped
    ensures CleanEnds(After(insts, fates, completed, abort, n).events, insts[i].id) >= 1
  {
    CleanAdvance(insts, fates, completed, abort, n, insts[i].id);
    var p := After(insts, fates, completed, abort, n - 1);
    if i < n - 1 {
      AllClean(insts, fates, completed, abort, n - 1, i);
    }
  }

  /** After any attempts, an admitted one that runs to its end without interruption and without errors
      leaves every selected question with exactly one error-free end. */
  lemma CleanAttemptCompletes(attempts: seq<Attempt>, a: Attempt, i: nat)
    requires forall k | 0 <= k < |attempts| :: WellFormed(attempts[k]) && DistinctIds(attempts[k].insts)
    requires WellFormed(a) && DistinctIds(a.insts) && i < |a.insts|
    requires Admitted(Campaign(attempts), a).Success?
    requires var completed := Admitted(Campaign(attempts), a).value;
             && a.cut >= |FullTrace(a, completed)|
             && (var s := Session(a.insts, a.fates, completed, a.abort); s.tally.errors == 0 && !s.stopped)
    ensures CleanEnds(Written(Campaign(attempts + [a])), a.insts[i].id) == 1
  {
    var log, q := Campaign(attempts), a.insts[i].id;
    var completed := Admitted(log, a).value;
    assert (attempts + [a])[..|attempts|] == attempts;
    AtMostOnce(attempts, q);
    hide Campaign, Session;
    PerformAddsOnce(log, a, q);
    CleanEndsAppend(Written(log), FullTrace(a, completed), q);
    FullTraceClean(a, completed, q);
    DoneCounts(Written(log), q);
    if q !in completed {
      AllClean(a.insts, a.fates, completed, a.abort, |a.insts|, i);
    }
  }

  // ---- what a crash does to the recomputed accuracy ----------------------

  /** A log cut right after a JUDGE_END. */
  predicate EndsJudged(log: seq<Event>) {
    log != [] && log[|log| - 1].kind.JudgeEnd?
  }

  /** Every JUDGE_END is directly followed by an error-free INSTANCE_END, and those follow nothing else. */
  predicate Paired(log: seq<Event>) {
    && (forall i | 0 <= i < |log| - 1 :: log[i].kind.JudgeEnd? <==> log[i + 1].kind.InstanceEnd? && log[i + 1].kind.error.None?)
    && (log != [] ==> !(log[0].kind.InstanceEnd? && log[0].kind.error.None?))
  }

  lemma {:induction false} PairedCounts(log: seq<Event>)
    requires Paired(log)
    ensures Rows(log, JudgedRows) == Rows(log, CleanRows) + (if EndsJudged(log) then 1 else 0)
    decreases |log|
  {
    hide Rows;
    if log == [] {
      RowsNone([], JudgedRows, "");
      RowsNone([], CleanRows, "");
    } else {
      var init, last := log[..|log| - 1], log[|log| - 1];
      assert log == init + [last];
      assert Paired(init);
      PairedCounts(init);
      RowsOne(last, JudgedRows, "");
      RowsOne(last, CleanRows, "");
      RowsAppend(init, [last], JudgedRows);
      RowsAppend(init, [last], CleanRows);
      if init != [] {
        assert log[|init| - 1] == init[|init| - 1];
      }
    }
  }

  lemma PairedInstance(inst: Instance, fate: Fate)
    ensures Paired(InstanceTrace(inst, fate)) && !EndsJudged(InstanceTrace(inst, fate))
  {
  }

  lemma PairedJoin(a: seq<Event>, b: seq<Event>)
    requires Paired(a) && Paired(b) && !EndsJudged(a)
    ensures Paired(a + b) && (b != [] ==> EndsJudged(a + b) == EndsJudged(b)) && (b == [] ==> EndsJudged(a + b) == EndsJudged(a))
  {
    var log := a + b;
    forall i | 0 <= i < |log| - 1
      ensures log[i].kind.JudgeEnd? <==> log[i + 1].kind.InstanceEnd? && log[i + 1].kind.error.None?
    {
      if i + 1 < |a| {
        assert log[i] == a[i] && log[i + 1] == a[i + 1];
      } else if i + 1 == |a| {
        assert log[i] == a[|a| - 1] && log[i + 1] == b[0];
      } else {
        assert log[i] == b[i - |a|] && log[i + 1] == b[i - |a| + 1];
      }
    }
  }

  lemma PairedAdvance(p: Progress, inst: Instance, fate: Fate, completed: set<QuestionId>, abort: bool)
    requires Paired(p.events) && !EndsJudged(p.events)
    ensures var q := Advance(p, inst, fate, completed, abort); Paired(q.events) && !EndsJudged(q.events)
  {
    hide Paired, EndsJudged, InstanceTrace, Counted;
    var skipped := Event(Some(inst.id), None, CellSkipped);
    PairedInstance(inst, fate);
    PairedJoin(p.events, InstanceTrace(inst, fate));
    PairedOne(skipped);
    PairedJoin(p.events, [skipped]);
  }

  lemma {:induction false} PairedProgress(insts: seq<Instance>, fates: seq<Fate>, completed: set<QuestionId>, abort: bool, n: nat)
    requires n <= |insts| == |fates|
    ensures var p := After(insts, fates, completed, abort, n); Paired(p.events) && !EndsJudged(p.events)
  {
    if n > 0 {
      PairedProgress(insts, fates, completed, abort, n - 1);
      PairedAdvance(After(insts, fates, completed, abort, n - 1), insts[n - 1], fates[n - 1], completed, abort);
      hide Paired, EndsJudged, Advance;
    }
  }

  lemma PairedOne(e: Event)
    requires !e.kind.InstanceEnd? && !e.kind.JudgeEnd?
    ensures Paired([e]) && !EndsJudged([e])
  {
  }

  lemma PairedFullTrace(a: Attempt, completed: set<QuestionId>)
    requires WellFormed(a)
    ensures Paired(FullTrace(a, completed)) && !EndsJudged(FullTrace(a, completed))
  {
    hide Paired, EndsJudged, Session;
    var s := Session(a.insts, a.fates, completed, a.abort);
    var first := Event(None, None, if a.resume then RunResume else RunStart(a.runId, a.configurationId));
    var last := Event(None, None, RunEnd(s.tally));
    assert Session(a.insts, a.fates, completed, a.abort) == After(a.insts, a.fates, completed, a.abort, |a.insts|) by {
      SessionIsAfter(a.insts, a.fates, completed, a.abort);
    }
    PairedProgress(a.insts, a.fates, completed, a.abort, |a.insts|);
    PairedOne(first);
    PairedOne(last);
    PairedJoin(s.events, [last]);
    PairedJoin([first], s.events + [last]);
  }

  lemma SessionIsAfter(insts: seq<Instance>, fates: seq<Fate>, completed: set<QuestionId>, abort: bool)
    requires |insts| == |fates|
    ensures Session(insts, fates, completed, abort) == After(insts, fates, completed, abort, |insts|)
  {
  }

  lemma PairedCut(log: seq<Event>, k: nat)
    requires Paired(log)
    ensures Paired(Cut(log, k))
  {
  }

  /** Analysis counts one JUDGE_END too many, compared with the error-free ends, for each attempt that
      was cut exactly between JUDGE_END and INSTANCE_END, and otherwise counts right: that question is
      judged again after the resume. */
  lemma CrashDoubleCount(log: Option<seq<Event>>, a: Attempt)
    requires WellFormed(a) && Admitted(log, a).Success?
    ensures var before, after := Accuracy(Written(log)), Accuracy(Written(Perform(log, a)));
            after.judged - after.clean
            == before.judged - before.clean
               + (if EndsJudged(Cut(FullTrace(a, Admitted(log, a).value), a.cut)) then 1 else 0)
  {
    hide FullTrace, Admitted, Paired, Rows, Cut;
    var added := Cut(FullTrace(a, Admitted(log, a).value), a.cut);
    PairedFullTrace(a, Admitted(log, a).value);
    PairedCut(FullTrace(a, Admitted(log, a).value), a.cut);
    PairedCounts(added);
    RowsAppend(Written(log), added, JudgedRows);
    RowsAppend(Written(log), added, CleanRows);
  }

  // ---- per question type -------------------------------------------------

  /** (judged, correct) rows of one question type. */
  function OfType(log: seq<Event>, t: string): (r: (nat, nat)) {
    if log == [] then (0, 0)
    else
      var rest := OfType(log[1..], t);
      if log[0].kind.JudgeEnd? && log[0].qtype == Some(t)
      then (rest.0 + 1, rest.1 + (if log[0].kind.correct then 1 else 0))
      else rest
  }

  function SumTypes(log: seq<Event>, types: seq<string>): (r: (nat, nat)) {
    if types == [] then (0, 0)
    else
      var first, rest := OfType(log, types[0]), SumTypes(log, types[1..]);
      (first.0 + rest.0, first.1 + rest.1)
  }

  /** A fresh run of one question, cut right after its JUDGE_END, and what analysis makes of it. */
  lemma CutAfterVerdict(inst: Instance)
    ensures var a := Attempt(false, "run", "configuration", [inst], [Judged(true)], false, 8);
            var counts := Accuracy(Written(Perform(None, a)));
            counts.judged == counts.clean + 1 && CleanEnds(Written(Perform(None, a)), inst.id) == 0
  {
    var a := Attempt(false, "run", "configuration", [inst], [Judged(true)], false, 8);
    var start := [Event(None, None, RunStart("run", "configuration"))];
    var until := start + Reached(inst, Judging) + [In(inst, JudgeEnd(true))];
    CutTrace(inst);
    CrashDoubleCount(None, a);
    RowsNone(start + Reached(inst, Judging), CleanRows, inst.id);
    RowsOne(In(inst, JudgeEnd(true)), CleanRows, inst.id);
    CleanEndsAppend(start + Reached(inst, Judging), [In(inst, JudgeEnd(true))], inst.id);
    assert [] + until == until;
    hide Rows, CleanEnds, FullTrace, Cut;
  }

  lemma CutTrace(inst: Instance)
    ensures Cut(FullTrace(Attempt(false, "run", "configuration", [inst], [Judged(true)], false, 8), {}), 8)
            == [Event(None, None, RunStart("run", "configuration"))] + Reached(inst, Judging) + [In(inst, JudgeEnd(true))]
  {
    var zero := After([inst], [Judged(true)], {}, false, 0);
    assert After([inst], [Judged(true)], {}, false, 1) == Advance(zero, inst, Judged(true), {}, false);
    assert Session([inst], [Judged(true)], {}, false).events == [] + InstanceTrace(inst, Judged(true));
  }

  /** The per-type table of `accuracy`: one group per type that occurs in a JUDGE_END. */
  method PerType(log: seq<Event>) returns (table: map<string, (nat, nat)>)
    ensures forall t :: t in table <==> OfType(log, t).0 > 0
    ensures forall t | t in table :: table[t] == OfType(log, t)
  {
    table := map[];
    var i := |log|;
    assert log[i..] == [];
    while i > 0
      invariant 0 <= i <= |log|
      invariant forall t :: t in table <==> OfType(log[i..], t).0 > 0
      invariant forall t | t in table :: table[t] == OfType(log[i..], t)
      invariant forall t | t !in table :: OfType(log[i..], t).1 == 0
    {
      i := i - 1;
      var e := log[i];
      assert log[i..][1..] == log[i + 1..] && log[i..][0] == e;
      if e.kind.JudgeEnd? && e.qtype.Some? {
        var t := e.qtype.value;
        var (n, c) := if t in table then table[t] else (0, 0);
        table := table[t := (n + 1, c + (if e.kind.correct then 1 else 0))];
      }
    }
    assert log[0..] == log;
  }

  /** A group counts the verdicts on the questions of its type, and those that are correct. */
  lemma {:induction false} OfTypeExactly(log: seq<Event>, t: string, k: nat)
    requires k <= |log|
    ensures OfType(log[k..], t).0 == |TypeAt(log, t, false, k)| && OfType(log[k..], t).1 == |TypeAt(log, t, true, k)|
    decreases |log| - k
  {
    if k < |log| {
      OfTypeExactly(log, t, k + 1);
      assert log[k..][1..] == log[k + 1..] && log[k..][0] == log[k];
      TypeStep(log, t, false, k);
      TypeStep(log, t, true, k);
      hide TypeAt;
    } else {
      assert TypeAt(log, t, false, k) == {} && TypeAt(log, t, true, k) == {};
    }
  }

  /** The positions from k on of verdicts on questions of type t, all or only the correct ones. */
  function TypeAt(log: seq<Event>, t: string, onlyCorrect: bool, k: nat): (r: set<nat>) {
    set i | k <= i < |log| && log[i].kind.JudgeEnd? && log[i].qtype == Some(t) && (onlyCorrect ==> log[i].kind.correct)
  }

  lemma TypeStep(log: seq<Event>, t: string, onlyCorrect: bool, k: nat)
    requires k < |log|
    ensures |TypeAt(log, t, onlyCorrect, k)|
            == |TypeAt(log, t, onlyCorrect, k + 1)|
               + if log[k].kind.JudgeEnd? && log[k].qtype == Some(t) && (onlyCorrect ==> log[k].kind.correct) then 1 else 0
  {
    var more := TypeAt(log, t, onlyCorrect, k + 1);
    assert k !in more;
    assert TypeAt(log, t, onlyCorrect, k)
           == if log[k].kind.JudgeEnd? && log[k].qtype == Some(t) && (onlyCorrect ==> log[k].kind.correct) then more + {k} else more;
    hide TypeAt;
  }

  /** The groups partition the judged rows: over any list of distinct types that covers the log, their
      counts add up to the overall ones. */
  lemma {:induction false} TypesPartition(log: seq<Event>, types: seq<string>)
    requires Distinct(types)
    requires forall i | 0 <= i < |log| && log[i].kind.JudgeEnd? :: log[i].qtype.Some? && log[i].qtype.value in types
    ensures SumTypes(log, types) == (Accuracy(log).judged, Accuracy(log).correct)
  {
    if log == [] {
      SumNothing(types);
    } else {
      TypesPartition(log[1..], types);
      SumStep(log, types);
    }
  }

  lemma {:induction false} SumNothing(types: seq<string>)
    ensures SumTypes([], types) == (0, 0)
  {
    if types != [] {
      SumNothing(types[1..]);
    }
  }

  lemma {:induction false} SumStep(log: seq<Event>, types: seq<string>)
    requires log != [] && Distinct(types)
    ensures var e, s, rest := log[0], SumTypes(log, types), SumTypes(log[1..], types);
            if e.kind.JudgeEnd? && e.qtype.Some? && e.qtype.value in types
            then s == (rest.0 + 1, rest.1 + (if e.kind.correct then 1 else 0))
            else s == rest
    decreases |types|
  {
    if types != [] {
      SumStep(log, types[1..]);
      assert types == [types[0]] + types[1..];
      assert forall t :: t in types <==> t == types[0] || t in types[1..];
    }
  }
}
