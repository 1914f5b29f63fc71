/** Life of one proxied request as a step machine over its awaits, and all interleavings of
    such requests over one append-only log. */
module ModelCalls {
  import opened Common
  import opened Text

  type RequestId = nat

  datatype Endpoint = Chat | Responses | Embeddings | Models | Unsupported

  datatype Status = StatusSuccess | StatusError

  datatype ErrorType =
    | InvalidAttribution | UnattributedRequest | UnsupportedEndpoint | InvalidRequestBody
    | UpstreamTimeout | UpstreamUnreachable | UpstreamError | ClientDisconnected | UpstreamStreamError

  /** The strings a record takes from outside: tags and scope ids, members of the request body, and what
      the upstream answered. */
  datatype Texts = Texts(attribution: set<Text>, request: set<Text>, reply: set<Text>)

  datatype Call = Call(
    status: Status,
    httpStatus: Option<int>,
    upstreamHttpStatus: Option<int>,
    errorType: Option<ErrorType>,
    texts: Texts,
    logged: bool)

  /** How a started stream stops: exhausted, failed in one of the three handled ways, or thrown out
      of by something no handler names: the consumer closing the generator at a yield, a data line that
      raises, because it cannot be decoded or has a member of an unexpected type, or another exception of
      the chunk iterator. */
  datatype StreamEnd = Exhausted | Cancelled | TimedOut | Broken | Closed | Unreadable | Raised

  predicate Unnamed(how: StreamEnd) {
    how.Closed? || how.Unreadable? || how.Raised?
  }

  /** `named`: system, operation, session or run is among the tags. */
  datatype Attribution = Malformed | Resolved(named: bool, texts: set<Text>)

  datatype Body = NotAnObject | Object(stream: bool, texts: set<Text>)

  /** A reply body: bytes that make the JSON decoder raise something other than a syntax error, or any
      other, with the strings the record takes from it. */
  datatype Content = Undecodable | Decoded(texts: set<Text>)

  /** What the world answers at each point where a request waits. The answers in -Raised stand for any
      exception that no handler names on the way to the next wait, whether the await raises it, a
      cancellation does, or a configured log of request bodies. */
  datatype Input =
    | Admit(attribution: Attribution) | AdmitRaised
    | BodyRead(body: Body) | BodyRaised
    | Reply(status: int, content: Content) | ReplyTimedOut | ReplyUnreachable | ReplyRaised
    | ErrorBodyRead(content: Content) | ErrorBodyRaised
    | StreamStarted | StreamAbandoned
    | StreamEnded(how: StreamEnd, texts: set<Text>)
    | UpstreamClosed | UpstreamCloseRaised
    | ResponseSent | ResponseLost

  datatype Phase =
    | Arrived | ReadingBody
    | AwaitingReply | Delivering
    | AwaitingStream | ReadingErrorBody | StreamReady | Streaming | Closing(how: StreamEnd)
    | Finished(last: Input, ending: Option<StreamEnd>)

  datatype Task = Task(endpoint: Endpoint, phase: Phase, call: Call)

  const NO_TEXTS := Texts({}, {}, {})

  const FRESH_CALL := Call(StatusError, None, None, None, NO_TEXTS, false)

  predicate IsOk(status: int) {
    200 <= status < 300
  }

  function Failed(c: Call, http: int, e: ErrorType): (r: Call) {
    c.(status := StatusError, httpStatus := Some(http), errorType := Some(e))
  }

  /** The record is marked as logged before it is written. */
  function Logged(c: Call): (r: Call) {
    c.(logged := true)
  }

  /** UTF-8 has no encoding for a surrogate code point. */
  predicate Encodable(t: Text) {
    forall i | 0 <= i < |t| :: !IsHigh(t[i]) && !IsLow(t[i])
  }

  /** The write succeeds exactly when every string of the record can be encoded. */
  predicate CanBeWritten(c: Call) {
    forall t | t in c.texts.attribution + c.texts.request + c.texts.reply :: Encodable(t)
  }

  /** A handled failure: recorded, logged and answered. */
  function Rejected(t: Task, input: Input, http: int, e: ErrorType): (r: Task) {
    t.(phase := Finished(input, None), call := Logged(Failed(t.call, http, e)))
  }

  /** An exception nobody handles: the request is over and its record is dropped. */
  function Dropped(t: Task, input: Input, ending: Option<StreamEnd>): (r: Task) {
    t.(phase := Finished(input, ending))
  }

  function AfterAdmit(requireAttribution: bool, t: Task, a: Attribution): (r: Task) {
    match a
    case Malformed => Rejected(t, Admit(a), 400, InvalidAttribution)
    case Resolved(named, texts) =>
      var u := t.(call := t.call.(texts := t.call.texts.(attribution := texts)));
      if requireAttribution && !named && !t.endpoint.Models? then Rejected(u, Admit(a), 400, UnattributedRequest)
      else if t.endpoint.Unsupported? then Rejected(u, Admit(a), 404, UnsupportedEndpoint)
      else u.(phase := ReadingBody)
  }

  function AfterBody(t: Task, b: Body): (r: Task) {
    if t.endpoint.Models? then t.(phase := AwaitingReply)
    else match b
      case NotAnObject => Rejected(t, BodyRead(b), 400, InvalidRequestBody)
      case Object(stream, texts) =>
        t.(phase := if stream && (t.endpoint.Chat? || t.endpoint.Responses?) then AwaitingStream else AwaitingReply,
           call := t.call.(texts := t.call.texts.(request := texts)))
  }

  function WithReply(c: Call, texts: set<Text>): (r: Call) {
    c.(texts := c.texts.(reply := texts))
  }

  function AfterSimpleReply(t: Task, status: int, content: Content): (r: Task) {
    var c := t.call.(upstreamHttpStatus := Some(status), httpStatus := Some(status));
    match content
    case Undecodable => Dropped(t.(call := c), Reply(status, content), None)
    case Decoded(texts) =>
      var d := WithReply(c, texts);
      t.(phase := Delivering,
         call := if IsOk(status) then d.(status := StatusSuccess) else Failed(d, status, UpstreamError))
  }

  function AfterErrorBody(t: Task, content: Content): (r: Option<Task>) {
    match (content, t.call.upstreamHttpStatus)
    case (Undecodable, _) => Some(Dropped(t, ErrorBodyRead(content), None))
    case (Decoded(texts), Some(status)) =>
      Some(Rejected(t.(call := WithReply(t.call, texts)), ErrorBodyRead(content), status, UpstreamError))
    case (Decoded(_), None) => None
  }

  function AfterStreamReply(t: Task, status: int): (r: Task) {
    var c := t.call.(upstreamHttpStatus := Some(status));
    if IsOk(status) then t.(phase := StreamReady, call := c.(httpStatus := Some(status)))
    else t.(phase := ReadingErrorBody, call := c)
  }

  function AfterStreamEnd(c: Call, how: StreamEnd): (r: Call) {
    match how
    case Exhausted => c.(status := StatusSuccess)
    case Cancelled => Failed(c, 499, ClientDisconnected)
    case TimedOut => Failed(c, 504, UpstreamTimeout)
    case Broken => Failed(c, 502, UpstreamStreamError)
    case Closed => c
    case Unreadable => c
    case Raised => c
  }

  /** One segment between two awaits; None when the request is not waiting for this input. */
  function Step(requireAttribution: bool, t: Task, input: Input): (r: Option<Task>) {
    match (t.phase, input)
    case (Arrived, Admit(a)) => Some(AfterAdmit(requireAttribution, t, a))
    case (Arrived, AdmitRaised) => Some(Dropped(t, input, None))
    case (ReadingBody, BodyRead(b)) => Some(AfterBody(t, b))
    case (ReadingBody, BodyRaised) => Some(Dropped(t, input, None))
    case (AwaitingReply, Reply(status, content)) => Some(AfterSimpleReply(t, status, content))
    case (AwaitingReply, ReplyTimedOut) => Some(Rejected(t, input, 504, UpstreamTimeout))
    case (AwaitingReply, ReplyUnreachable) => Some(Rejected(t, input, 502, UpstreamUnreachable))
    case (AwaitingReply, ReplyRaised) => Some(Dropped(t, input, None))
    case (Delivering, ResponseSent) => Some(t.(phase := Finished(input, None), call := Logged(t.call)))
    case (Delivering, ResponseLost) => Some(Dropped(t, input, None))
    case (AwaitingStream, Reply(status, _)) => Some(AfterStreamReply(t, status))
    case (AwaitingStream, ReplyTimedOut) => Some(Rejected(t, input, 504, UpstreamTimeout))
    case (AwaitingStream, ReplyUnreachable) => Some(Rejected(t, input, 502, UpstreamUnreachable))
    case (AwaitingStream, ReplyRaised) => Some(Dropped(t, input, None))
    case (ReadingErrorBody, ErrorBodyRead(content)) => AfterErrorBody(t, content)
    case (ReadingErrorBody, ErrorBodyRaised) => Some(Dropped(t, input, None))
    case (StreamReady, StreamStarted) => Some(t.(phase := Streaming))
    case (StreamReady, StreamAbandoned) => Some(Dropped(t, input, None))
    case (Streaming, StreamEnded(how, texts)) =>
      Some(t.(phase := Closing(how), call := AfterStreamEnd(WithReply(t.call, texts), how)))
    case (Closing(how), UpstreamClosed) => Some(t.(phase := Finished(input, Some(how)), call := Logged(t.call)))
    case (Closing(how), UpstreamCloseRaised) => Some(Dropped(t, input, Some(how)))
    case _ => None
  }

  /** The inputs that end a request through an exception no handler turns into a record. */
  predicate Escapes(input: Input) {
    || input.AdmitRaised? || input.BodyRaised? || input.ReplyRaised? || input.ErrorBodyRaised?
    || input.StreamAbandoned? || input.UpstreamCloseRaised? || input.ResponseLost?
    || ((input.Reply? || input.ErrorBodyRead?) && input.content.Undecodable?)
  }

  // ---- interleavings -----------------------------------------------------

  datatype LogEntry = ModelCall(id: RequestId, call: Call) | OtherEvent

  datatype State = State(tasks: map<RequestId, Task>, log: seq<LogEntry>)

  datatype Action = Arrive(id: RequestId, endpoint: Endpoint) | Resume(id: RequestId, input: Input) | Note

  const START := State(map[], [])

  function Entries(id: RequestId, before: Call, after: Call): (r: seq<LogEntry>) {
    if after.logged && !before.logged && CanBeWritten(after) then [ModelCall(id, after)] else []
  }

  /** Any request may take its next segment at any time; an action that is not possible does nothing. */
  function Next(requireAttribution: bool, s: State, a: Action): (r: State) {
    match a
    case Arrive(id, endpoint) =>
      if id in s.tasks then s else s.(tasks := s.tasks[id := Task(endpoint, Arrived, FRESH_CALL)])
    case Resume(id, input) =>
      if id !in s.tasks then s
      else (match Step(requireAttribution, s.tasks[id], input)
            case None => s
            case Some(t) => State(s.tasks[id := t], s.log + Entries(id, s.tasks[id].call, t.call)))
    case Note => s.(log := s.log + [OtherEvent])
  }

  function Run(requireAttribution: bool, s: State, actions: seq<Action>): (r: State)
    decreases |actions|
  {
    if actions == [] then s
    else Next(requireAttribution, Run(requireAttribution, s, actions[..|actions| - 1]), actions[|actions| - 1])
  }

  function CallsFor(log: seq<LogEntry>, id: RequestId): (n: nat) {
    if log == [] then 0
    else CallsFor(log[..|log| - 1], id) + (if log[|log| - 1].ModelCall? && log[|log| - 1].id == id then 1 else 0)
  }

  ghost predicate TaskOk(t: Task) {
    && (t.call.logged ==> t.phase.Finished?)
    && (t.phase.Finished? ==>
          && (t.call.logged <==> !Escapes(t.phase.last))
          && (t.call.logged && t.call.status.StatusError? && t.call.errorType.None? <==>
              t.call.logged && t.phase.ending.Some? && Unnamed(t.phase.ending.value)))
    && (t.call.status.StatusSuccess? ==>
          t.call.errorType.None? && t.call.httpStatus.Some? && IsOk(t.call.httpStatus.value))
    && (t.phase.Delivering? && t.call.status.StatusError? ==> t.call.errorType.Some?)
    && (t.phase.ReadingErrorBody? ==> t.call.upstreamHttpStatus.Some?)
    && (t.phase.StreamReady? || t.phase.Streaming? ==>
          t.call.httpStatus.Some? && IsOk(t.call.httpStatus.value))
    && (t.phase.Closing? ==>
          (t.call.status.StatusError? && t.call.errorType.None? <==> Unnamed(t.phase.how)))
    && (!t.phase.Finished? && !t.phase.Delivering? && !t.phase.Closing? ==>
          t.call.status.StatusError? && t.call.errorType.None?)
  }

  predicate Written(c: Call) {
    c.logged && CanBeWritten(c)
  }

  ghost predicate Inv(s: State) {
    && (forall id | id in s.tasks :: TaskOk(s.tasks[id]))
    && (forall id | id in s.tasks :: CallsFor(s.log, id) == if Written(s.tasks[id].call) then 1 else 0)
    && (forall id: RequestId | id !in s.tasks :: CallsFor(s.log, id) == 0)
    && (forall i | 0 <= i < |s.log| && s.log[i].ModelCall? ::
          && s.log[i].id in s.tasks
          && s.tasks[s.log[i].id].call == s.log[i].call
          && Written(s.log[i].call))
  }

  lemma StepKeepsTaskOk(requireAttribution: bool, t: Task, input: Input)
    requires TaskOk(t) && Step(requireAttribution, t, input).Some?
    ensures TaskOk(Step(requireAttribution, t, input).value)
    ensures !t.phase.Finished? && !t.call.logged
  {
  }

  lemma CallsSnoc(log: seq<LogEntry>, e: LogEntry, id: RequestId)
    ensures CallsFor(log + [e], id) == CallsFor(log, id) + (if e.ModelCall? && e.id == id then 1 else 0)
  {
    assert (log + [e])[..|log|] == log;
  }

  lemma {:induction false} UpdateKeepsInv(s: State, id: RequestId, t: Task)
    requires Inv(s) && id in s.tasks && !s.tasks[id].call.logged && TaskOk(t)
    ensures Inv(State(s.tasks[id := t], s.log + Entries(id, s.tasks[id].call, t.call)))
  {
    hide TaskOk, CanBeWritten;
    var more := Entries(id, s.tasks[id].call, t.call);
    var log := s.log + more;
    if more == [] {
      assert log == s.log;
    } else {
      forall k: RequestId ensures CallsFor(log, k) == CallsFor(s.log, k) + (if k == id then 1 else 0) {
        CallsSnoc(s.log, more[0], k);
      }
    }
    assert forall i | 0 <= i < |log| :: (if i < |s.log| then log[i] == s.log[i] else log[i] == more[i - |s.log|]);
    hide CallsFor;
  }

  lemma {:induction false} ArriveKeepsInv(s: State, id: RequestId, endpoint: Endpoint)
    requires Inv(s) && id !in s.tasks
    ensures Inv(s.(tasks := s.tasks[id := Task(endpoint, Arrived, FRESH_CALL)]))
  {
    assert TaskOk(Task(endpoint, Arrived, FRESH_CALL));
    hide TaskOk, CanBeWritten, CallsFor;
  }

  lemma {:induction false} NoteKeepsInv(s: State)
    requires Inv(s)
    ensures Inv(s.(log := s.log + [OtherEvent]))
  {
    forall k: RequestId ensures CallsFor(s.log + [OtherEvent], k) == CallsFor(s.log, k) {
      CallsSnoc(s.log, OtherEvent, k);
    }
    hide TaskOk, CanBeWritten, CallsFor;
  }

  lemma {:induction false} NextKeepsInv(requireAttribution: bool, s: State, a: Action)
    requires Inv(s)
    ensures Inv(Next(requireAttribution, s, a))
    ensures s.log <= Next(requireAttribution, s, a).log
  {
    match a
    case Arrive(id, endpoint) =>
      if id !in s.tasks {
        ArriveKeepsInv(s, id, endpoint);
      }
    case Resume(id, input) =>
      if id in s.tasks && Step(requireAttribution, s.tasks[id], input).Some? {
        StepKeepsTaskOk(requireAttribution, s.tasks[id], input);
        UpdateKeepsInv(s, id, Step(requireAttribution, s.tasks[id], input).value);
      }
    case Note => NoteKeepsInv(s);
  }

  lemma {:induction false} RunKeepsInv(requireAttribution: bool, actions: seq<Action>)
    ensures Inv(Run(requireAttribution, START, actions))
  {
    if actions != [] {
      RunKeepsInv(requireAttribution, actions[..|actions| - 1]);
      NextKeepsInv(requireAttribution, Run(requireAttribution, START, actions[..|actions| - 1]), actions[|actions| - 1]);
    }
  }

  /** A surrogate code point. */
  predicate Lone(c: CodePoint) {
    0xD800 <= c <= 0xDFFF
  }

  /** In every reachable state a request has at most one MODEL_CALL; a finished request has exactly
      one if and only if the await it ended on did not escape the handlers and no string of its
      record holds a surrogate. */
  lemma OneModelCall(requireAttribution: bool, actions: seq<Action>, id: RequestId)
    ensures var s := Run(requireAttribution, START, actions);
            && CallsFor(s.log, id) <= 1
            && (id in s.tasks && s.tasks[id].phase.Finished? ==>
                  var texts := s.tasks[id].call.texts;
                  (CallsFor(s.log, id) == 1 <==>
                   && !Escapes(s.tasks[id].phase.last)
                   && forall t | t in texts.attribution + texts.request + texts.reply :: forall c | c in t :: !Lone(c)))
            && (id in s.tasks && !s.tasks[id].phase.Finished? ==> CallsFor(s.log, id) == 0)
  {
    RunKeepsInv(requireAttribution, actions);
    forall t: Text ensures Encodable(t) <==> forall c | c in t :: !Lone(c) {
      EncodableExactly(t);
    }
    hide Encodable, Lone;
  }

  lemma EncodableExactly(t: Text)
    ensures Encodable(t) <==> forall c | c in t :: !Lone(c)
  {
    if Encodable(t) {
      forall c | c in t ensures !Lone(c) {
        var i :| 0 <= i < |t| && t[i] == c;
      }
    } else {
      var i :| 0 <= i < |t| && (IsHigh(t[i]) || IsLow(t[i]));
      assert t[i] in t && Lone(t[i]);
    }
  }

  // ---- what the answers to a request come to -----------------------------

  /** The task after these answers, if it waited for each of them. */
  function Follow(requireAttribution: bool, t: Task, inputs: seq<Input>): (r: Option<Task>)
    decreases |inputs|
  {
    if inputs == [] then Some(t)
    else match Step(requireAttribution, t, inputs[0])
      case None => None
      case Some(u) => Follow(requireAttribution, u, inputs[1..])
  }

  predicate Says(c: Call, status: Status, http: int, upstream: Option<int>, error: Option<ErrorType>) {
    c.status == status && c.httpStatus == Some(http) && c.upstreamHttpStatus == upstream && c.errorType == error
  }

  /** A stream that the upstream answered with `http` and that stopped as `how`. */
  predicate StreamSays(c: Call, http: int, how: StreamEnd) {
    match how
    case Exhausted => Says(c, StatusSuccess, http, Some(http), None)
    case Cancelled => Says(c, StatusError, 499, Some(http), Some(ClientDisconnected))
    case TimedOut => Says(c, StatusError, 504, Some(http), Some(UpstreamTimeout))
    case Broken => Says(c, StatusError, 502, Some(http), Some(UpstreamStreamError))
    case Closed => Says(c, StatusError, http, Some(http), None)
    case Unreadable => Says(c, StatusError, http, Some(http), None)
    case Raised => Says(c, StatusError, http, Some(http), None)
  }

  /** The story of a logged request: the only sequences of answers that lead to a record, and for each the
      record and where its strings come from. */
  predicate Story(requireAttribution: bool, endpoint: Endpoint, inputs: seq<Input>, c: Call, ending: Option<StreamEnd>) {
    && inputs != [] && inputs[0].Admit?
    && match inputs[0].attribution
       case Malformed =>
         |inputs| == 1 && Says(c, StatusError, 400, None, Some(InvalidAttribution)) && c.texts == NO_TEXTS && ending.None?
       case Resolved(named, texts) =>
         && c.texts.attribution == texts
         && if requireAttribution && !named && !endpoint.Models? then
              |inputs| == 1 && Says(c, StatusError, 400, None, Some(UnattributedRequest)) && c.texts.request == {} && ending.None?
            else if endpoint.Unsupported? then
              |inputs| == 1 && Says(c, StatusError, 404, None, Some(UnsupportedEndpoint)) && c.texts.request == {} && ending.None?
            else
              && |inputs| >= 2 && inputs[1].BodyRead?
              && BodyStory(endpoint, inputs[1].body, inputs[2..], c, ending)
  }

  predicate BodyStory(endpoint: Endpoint, body: Body, answers: seq<Input>, c: Call, ending: Option<StreamEnd>) {
    if endpoint.Models? then c.texts.request == {} && PlainStory(answers, c) && ending.None?
    else match body
      case NotAnObject =>
        answers == [] && Says(c, StatusError, 400, None, Some(InvalidRequestBody)) && c.texts.request == {} && ending.None?
      case Object(stream, texts) =>
        && c.texts.request == texts
        && if stream && (endpoint.Chat? || endpoint.Responses?) then StreamStory(answers, c, ending)
           else PlainStory(answers, c) && ending.None?
  }

  predicate NoReplyStory(answers: seq<Input>, c: Call) {
    && |answers| == 1
    && ((answers[0].ReplyTimedOut? && Says(c, StatusError, 504, None, Some(UpstreamTimeout)))
        || (answers[0].ReplyUnreachable? && Says(c, StatusError, 502, None, Some(UpstreamUnreachable))))
    && c.texts.reply == {}
  }

  /** A reply that is not streamed: logged when it has been delivered, a success exactly for 2xx. */
  predicate PlainStory(answers: seq<Input>, c: Call) {
    || NoReplyStory(answers, c)
    || (&& |answers| == 2 && answers[0].Reply? && answers[0].content.Decoded? && answers[1].ResponseSent?
        && c.texts.reply == answers[0].content.texts
        && var http := answers[0].status;
           if 200 <= http < 300 then Says(c, StatusSuccess, http, Some(http), None)
           else Says(c, StatusError, http, Some(http), Some(UpstreamError)))
  }

  predicate StreamStory(answers: seq<Input>, c: Call, ending: Option<StreamEnd>) {
    || (NoReplyStory(answers, c) && ending.None?)
    || (&& |answers| == 2 && answers[0].Reply? && !(200 <= answers[0].status < 300)
        && answers[1].ErrorBodyRead? && answers[1].content.Decoded? && c.texts.reply == answers[1].content.texts
        && Says(c, StatusError, answers[0].status, Some(answers[0].status), Some(UpstreamError)) && ending.None?)
    || (&& |answers| == 4 && answers[0].Reply? && 200 <= answers[0].status < 300
        && answers[1].StreamStarted? && answers[2].StreamEnded? && answers[3].UpstreamClosed?
        && c.texts.reply == answers[2].texts
        && StreamSays(c, answers[0].status, answers[2].how) && ending == Some(answers[2].how))
  }

  lemma FollowFirst(requireAttribution: bool, t: Task, inputs: seq<Input>, u: Task)
    requires Follow(requireAttribution, t, inputs) == Some(u) && u.phase.Finished? && !t.phase.Finished?
    ensures inputs != [] && Step(requireAttribution, t, inputs[0]).Some?
    ensures Follow(requireAttribution, Step(requireAttribution, t, inputs[0]).value, inputs[1..]) == Some(u)
  {
    hide Step;
  }

  /** Nothing follows the answer that finished a request. */
  lemma FollowNone(requireAttribution: bool, t: Task, inputs: seq<Input>, u: Task)
    requires Follow(requireAttribution, t, inputs) == Some(u) && t.phase.Finished?
    ensures inputs == [] && u == t
  {
  }

  lemma PlainReplies(requireAttribution: bool, t: Task, answers: seq<Input>, u: Task)
    requires t.phase.AwaitingReply? && t.call.texts.reply == {} && t.call.upstreamHttpStatus.None? && !t.call.logged && t.call.errorType.None?
    requires Follow(requireAttribution, t, answers) == Some(u) && u.phase.Finished? && u.call.logged
    ensures PlainStory(answers, u.call) && u.phase.ending.None?
    ensures u.call.texts.(reply := {}) == t.call.texts && u.endpoint == t.endpoint && u.phase.last == answers[|answers| - 1]
  {
    FollowFirst(requireAttribution, t, answers, u);
    var v := Step(requireAttribution, t, answers[0]).value;
    hide Follow;
    if v.phase.Finished? {
      FollowNone(requireAttribution, v, answers[1..], u);
    } else {
      FollowFirst(requireAttribution, v, answers[1..], u);
      FollowNone(requireAttribution, Step(requireAttribution, v, answers[1]).value, answers[1..][1..], u);
    }
  }

  lemma StreamReplies(requireAttribution: bool, t: Task, answers: seq<Input>, u: Task)
    requires t.phase.AwaitingStream? && t.call.texts.reply == {} && t.call.upstreamHttpStatus.None? && !t.call.logged && t.call.errorType.None?
    requires t.call.status.StatusError?
    requires Follow(requireAttribution, t, answers) == Some(u) && u.phase.Finished? && u.call.logged
    ensures StreamStory(answers, u.call, u.phase.ending)
    ensures u.call.texts.(reply := {}) == t.call.texts && u.endpoint == t.endpoint && u.phase.last == answers[|answers| - 1]
  {
    FollowFirst(requireAttribution, t, answers, u);
    var v := Step(requireAttribution, t, answers[0]).value;
    if v.phase.Finished? {
      FollowNone(requireAttribution, v, answers[1..], u);
    } else {
      FollowFirst(requireAttribution, v, answers[1..], u);
      var w := Step(requireAttribution, v, answers[1]).value;
      if v.phase.ReadingErrorBody? {
        FollowNone(requireAttribution, w, answers[1..][1..], u);
      } else {
        assert answers[1..][1..] == answers[2..];
        if w.phase.Finished? {
          FollowNone(requireAttribution, w, answers[2..], u);
        } else {
          StreamGoesOn(requireAttribution, w, answers[2..], u);
        }
      }
    }
  }

  lemma StreamGoesOn(requireAttribution: bool, t: Task, answers: seq<Input>, u: Task)
    requires t.phase.Streaming? && !t.call.logged && t.call.errorType.None? && t.call.status.StatusError?
    requires Follow(requireAttribution, t, answers) == Some(u) && u.phase.Finished? && u.call.logged
    requires t.call.httpStatus.Some? && t.call.upstreamHttpStatus == t.call.httpStatus
    ensures |answers| == 2 && answers[0].StreamEnded? && answers[1].UpstreamClosed?
    ensures StreamSays(u.call, t.call.httpStatus.value, answers[0].how) && u.phase == Finished(UpstreamClosed, Some(answers[0].how))
    ensures u.call.texts == t.call.texts.(reply := answers[0].texts) && u.endpoint == t.endpoint
  {
    FollowFirst(requireAttribution, t, answers, u);
    var v := Step(requireAttribution, t, answers[0]).value;
    FollowFirst(requireAttribution, v, answers[1..], u);
    FollowNone(requireAttribution, Step(requireAttribution, v, answers[1]).value, answers[1..][1..], u);
  }

  /** Whatever a request was answered, if it is finished and logged its record is the one of its story. */
  lemma LoggedStory(requireAttribution: bool, endpoint: Endpoint, inputs: seq<Input>, u: Task)
    requires Follow(requireAttribution, Task(endpoint, Arrived, FRESH_CALL), inputs) == Some(u)
    requires u.phase.Finished? && u.call.logged
    ensures Story(requireAttribution, endpoint, inputs, u.call, u.phase.ending)
    ensures u.endpoint == endpoint && u.phase.last == inputs[|inputs| - 1]
  {
    var t := Task(endpoint, Arrived, FRESH_CALL);
    FollowFirst(requireAttribution, t, inputs, u);
    var v := Step(requireAttribution, t, inputs[0]).value;
    hide Follow, PlainStory, StreamStory;
    if v.phase.Finished? {
      FollowNone(requireAttribution, v, inputs[1..], u);
    } else {
      FollowFirst(requireAttribution, v, inputs[1..], u);
      var w := Step(requireAttribution, v, inputs[1]).value;
      assert inputs[1..][1..] == inputs[2..];
      if w.phase.Finished? {
        FollowNone(requireAttribution, w, inputs[2..], u);
      } else if w.phase.AwaitingReply? {
        PlainReplies(requireAttribution, w, inputs[2..], u);
      } else {
        StreamReplies(requireAttribution, w, inputs[2..], u);
      }
    }
  }

  lemma {:induction false} FollowSnoc(requireAttribution: bool, t: Task, inputs: seq<Input>, input: Input)
    ensures Follow(requireAttribution, t, inputs + [input])
            == match Follow(requireAttribution, t, inputs)
               case None => None
               case Some(u) => Step(requireAttribution, u, input)
    decreases |inputs|
  {
    if inputs == [] {
      assert [] + [input] == [input] && [input][1..] == [];
    } else {
      assert (inputs + [input])[1..] == inputs[1..] + [input];
      match Step(requireAttribution, t, inputs[0])
      case None =>
      case Some(u) => FollowSnoc(requireAttribution, u, inputs[1..], input);
    }
  }

  /** Actions `at` of the run, in order, are the arrival of the request at `endpoint` and these answers. */
  predicate Happened(actions: seq<Action>, at: seq<nat>, id: RequestId, endpoint: Endpoint, inputs: seq<Input>) {
    && |at| == |inputs| + 1
    && (forall k | 0 <= k < |at| :: at[k] < |actions|)
    && (forall k, l | 0 <= k < l < |at| :: at[k] < at[l])
    && actions[at[0]] == Arrive(id, endpoint)
    && forall k | 0 <= k < |inputs| :: actions[at[k + 1]] == Resume(id, inputs[k])
  }

  /** In any interleaving a request is where its own arrival and answers have taken it. */
  lemma {:induction false} Answers(requireAttribution: bool, actions: seq<Action>, id: RequestId)
      returns (inputs: seq<Input>, at: seq<nat>)
    requires id in Run(requireAttribution, START, actions).tasks
    ensures var t := Run(requireAttribution, START, actions).tasks[id];
            && Happened(actions, at, id, t.endpoint, inputs)
            && Follow(requireAttribution, Task(t.endpoint, Arrived, FRESH_CALL), inputs) == Some(t)
    decreases |actions|
  {
    var before, last := actions[..|actions| - 1], actions[|actions| - 1];
    assert actions == before + [last];
    RunSnoc(requireAttribution, before, last);
    var s := Run(requireAttribution, START, before);
    hide Run;
    if id !in s.tasks {
      inputs, at := [], [|before|];
      hide Step;
      assert last == Arrive(id, last.endpoint);
    } else {
      inputs, at := Answers(requireAttribution, before, id);
      Extended(before, last, at, id, s.tasks[id].endpoint, inputs);
      if Concerns(last, id) && last.Resume? && Step(requireAttribution, s.tasks[id], last.input).Some? {
        var endpoint := s.tasks[id].endpoint;
        FollowSnoc(requireAttribution, Task(endpoint, Arrived, FRESH_CALL), inputs, last.input);
        SameEndpoint(requireAttribution, s.tasks[id], last.input);
        hide Step, Follow, Happened, Entries;
        inputs, at := inputs + [last.input], at + [|before|];
      } else {
        Untouched(requireAttribution, s, last, id);
        hide Next, Step, Happened;
      }
    }
  }

  lemma SameEndpoint(requireAttribution: bool, t: Task, input: Input)
    requires Step(requireAttribution, t, input).Some?
    ensures Step(requireAttribution, t, input).value.endpoint == t.endpoint
  {
  }

  lemma Untouched(requireAttribution: bool, s: State, a: Action, id: RequestId)
    requires id in s.tasks
    requires Concerns(a, id) && a.Resume? ==> Step(requireAttribution, s.tasks[id], a.input).None?
    ensures id in Next(requireAttribution, s, a).tasks && Next(requireAttribution, s, a).tasks[id] == s.tasks[id]
  {
    hide Step, Entries;
  }

  lemma Extended(before: seq<Action>, last: Action, at: seq<nat>, id: RequestId, endpoint: Endpoint, inputs: seq<Input>)
    requires Happened(before, at, id, endpoint, inputs)
    ensures Happened(before + [last], at, id, endpoint, inputs)
    ensures last.Resume? && last.id == id ==>
              Happened(before + [last], at + [|before|], id, endpoint, inputs + [last.input])
  {
    assert forall k | 0 <= k < |at| :: (before + [last])[at[k]] == before[at[k]];
  }

  lemma WrittenIsFinished(t: Task)
    requires TaskOk(t) && Written(t.call)
    ensures t.phase.Finished? && t.call.logged
  {
  }

  /** What a story says about success and about errors without a type. */
  lemma StoryDecides(requireAttribution: bool, endpoint: Endpoint, inputs: seq<Input>, c: Call, p: Phase)
    requires p.Finished? && inputs != [] && p.last == inputs[|inputs| - 1]
    requires Story(requireAttribution, endpoint, inputs, c, p.ending)
    ensures c.status.StatusSuccess? ==> c.errorType.None? && c.httpStatus.Some? && 200 <= c.httpStatus.value < 300
    ensures c.status.StatusSuccess? <==>
              p.ending == Some(Exhausted)
              || (p.last.ResponseSent? && c.upstreamHttpStatus.Some? && 200 <= c.upstreamHttpStatus.value < 300)
    ensures c.status.StatusError? && c.errorType.None? <==>
              p.ending == Some(Closed) || p.ending == Some(Unreadable) || p.ending == Some(Raised)
  {
  }

  /** Every record in the log, in any interleaving, is the one of its request's story, made of an arrival
      and answers that happened in that order. So a success is a delivered 2xx reply or an exhausted 2xx
      stream, and each error type stands for one kind of ending. A logged error lacks a type exactly when
      the stream was thrown out of by something no handler names. */
  lemma LoggedOutcomes(requireAttribution: bool, actions: seq<Action>, i: nat) returns (inputs: seq<Input>, at: seq<nat>)
    requires i < |Run(requireAttribution, START, actions).log|
    requires Run(requireAttribution, START, actions).log[i].ModelCall?
    ensures var s := Run(requireAttribution, START, actions);
            var e := s.log[i];
            && e.id in s.tasks && s.tasks[e.id].phase.Finished?
            && var t := s.tasks[e.id];
               && Happened(actions, at, e.id, t.endpoint, inputs)
               && Story(requireAttribution, t.endpoint, inputs, e.call, t.phase.ending)
               && t.phase.last == inputs[|inputs| - 1]
               && (e.call.status.StatusSuccess? ==>
                     e.call.errorType.None? && e.call.httpStatus.Some? && 200 <= e.call.httpStatus.value < 300)
               && (e.call.status.StatusSuccess? <==>
                     t.phase.ending == Some(Exhausted)
                     || (t.phase.last.ResponseSent? && e.call.upstreamHttpStatus.Some? && 200 <= e.call.upstreamHttpStatus.value < 300))
               && (e.call.status.StatusError? && e.call.errorType.None? <==>
                     t.phase.ending == Some(Closed) || t.phase.ending == Some(Unreadable) || t.phase.ending == Some(Raised))
  {
    var s := Run(requireAttribution, START, actions);
    RunKeepsInv(requireAttribution, actions);
    hide Run, TaskOk, Follow, Happened, CallsFor, CanBeWritten, Step;
    var t := s.tasks[s.log[i].id];
    inputs, at := Answers(requireAttribution, actions, s.log[i].id);
    WrittenIsFinished(t);
    LoggedStory(requireAttribution, t.endpoint, inputs, t);
    hide Inv;
    StoryDecides(requireAttribution, t.endpoint, inputs, t.call, t.phase);
  }

  // ---- the strings of a record come from its inputs ----------------------

  function InputTexts(input: Input): (r: set<Text>) {
    match input
    case Admit(Resolved(_, texts)) => texts
    case BodyRead(Object(_, texts)) => texts
    case Reply(_, Decoded(texts)) => texts
    case ErrorBodyRead(Decoded(texts)) => texts
    case StreamEnded(_, texts) => texts
    case _ => {}
  }

  predicate Clean(input: Input) {
    forall t | t in InputTexts(input) :: Encodable(t)
  }

  lemma StepKeepsWritable(requireAttribution: bool, t: Task, input: Input)
    requires CanBeWritten(t.call) && Clean(input) && Step(requireAttribution, t, input).Some?
    ensures CanBeWritten(Step(requireAttribution, t, input).value.call)
  {
    hide Encodable;
  }

  /** If nothing a request was given holds a surrogate, its record can be written. */
  lemma {:induction false} CleanRequestsAreWritable(requireAttribution: bool, actions: seq<Action>, id: RequestId)
    requires forall i | 0 <= i < |actions| && actions[i].Resume? && actions[i].id == id :: Clean(actions[i].input)
    ensures var s := Run(requireAttribution, START, actions); id in s.tasks ==> CanBeWritten(s.tasks[id].call)
    decreases |actions|
  {
    if actions != [] {
      var before, last := actions[..|actions| - 1], actions[|actions| - 1];
      CleanRequestsAreWritable(requireAttribution, before, id);
      var s := Run(requireAttribution, START, before);
      hide Run, CanBeWritten, Clean, Step;
      if last.Resume? && last.id == id && id in s.tasks && Step(requireAttribution, s.tasks[id], last.input).Some? {
        StepKeepsWritable(requireAttribution, s.tasks[id], last.input);
      }
      FreshIsWritable();
    }
  }

  lemma FreshIsWritable()
    ensures CanBeWritten(FRESH_CALL)
  {
  }

  // ---- requests without the record they should have -----------------------

  lemma RunSnoc(requireAttribution: bool, actions: seq<Action>, a: Action)
    ensures Run(requireAttribution, START, actions + [a])
            == Next(requireAttribution, Run(requireAttribution, START, actions), a)
  {
    assert (actions + [a])[..|actions|] == actions;
  }

  const LONE: Text := [0xD800]

  lemma LoneSurrogate()
    ensures !Encodable(LONE)
  {
    assert IsHigh(LONE[0]);
  }

  /** A chat request that names itself and is read with the model text `model`. */
  function Opened(stream: bool, model: Text): (actions: seq<Action>) {
    [Arrive(0, Chat)] + [Resume(0, Admit(Resolved(true, {})))] + [Resume(0, BodyRead(Object(stream, {model})))]
  }

  lemma OpenedState(stream: bool, model: Text)
    ensures var s := Run(true, START, Opened(stream, model));
            && s.log == []
            && s.tasks == map[0 := Task(Chat, if stream then AwaitingStream else AwaitingReply,
                                        FRESH_CALL.(texts := NO_TEXTS.(request := {model})))]
  {
    RunSnoc(true, [], Arrive(0, Chat));
    assert [] + [Arrive(0, Chat)] == [Arrive(0, Chat)];
    RunSnoc(true, [Arrive(0, Chat)], Resume(0, Admit(Resolved(true, {}))));
    RunSnoc(true, [Arrive(0, Chat)] + [Resume(0, Admit(Resolved(true, {})))], Resume(0, BodyRead(Object(stream, {model}))));
  }

  /** A chat body whose model is a lone surrogate: answered with 200, delivered, and not in the log. */
  lemma SurrogateModelLeavesNoRecord()
    ensures var actions := Opened(false, LONE) + [Resume(0, Reply(200, Decoded({})))] + [Resume(0, ResponseSent)];
            var s := Run(true, START, actions);
            && 0 in s.tasks && s.tasks[0].phase == Finished(ResponseSent, None)
            && s.tasks[0].call.status == StatusSuccess && s.log == []
  {
    OpenedState(false, LONE);
    RunSnoc(true, Opened(false, LONE), Resume(0, Reply(200, Decoded({}))));
    RunSnoc(true, Opened(false, LONE) + [Resume(0, Reply(200, Decoded({})))], Resume(0, ResponseSent));
    hide Run, Opened;
    LoneSurrogate();
  }

  /** The same for an attribution rejected with 400. */
  lemma SurrogateTagLeavesNoRecord()
    ensures var s := Run(true, START, [Arrive(0, Chat)] + [Resume(0, Admit(Resolved(false, {LONE})))]);
            && 0 in s.tasks && s.tasks[0].phase.Finished? && s.tasks[0].call.httpStatus == Some(400) && s.log == []
  {
    RunSnoc(true, [], Arrive(0, Chat));
    assert [] + [Arrive(0, Chat)] == [Arrive(0, Chat)];
    RunSnoc(true, [Arrive(0, Chat)], Resume(0, Admit(Resolved(false, {LONE}))));
    LoneSurrogate();
  }

  /** An attribution that raises something other than a TagError: over without a record, whether or not
      the request would have been rejected anyway. */
  lemma RaisingAttributionLeavesNoRecord(requireAttribution: bool, endpoint: Endpoint)
    ensures var s := Run(requireAttribution, START, [Arrive(0, endpoint)] + [Resume(0, AdmitRaised)]);
            0 in s.tasks && s.tasks[0].phase.Finished? && s.log == []
  {
    RunSnoc(requireAttribution, [], Arrive(0, endpoint));
    assert [] + [Arrive(0, endpoint)] == [Arrive(0, endpoint)];
    RunSnoc(requireAttribution, [Arrive(0, endpoint)], Resume(0, AdmitRaised));
  }

  /** An error page that is not UTF-8, answered to a plain or to a streaming request. */
  lemma UndecodableReplyLeavesNoRecord()
    ensures var s := Run(true, START, Opened(false, []) + [Resume(0, Reply(502, Undecodable))]);
            0 in s.tasks && s.tasks[0].phase.Finished? && s.log == []
    ensures var s := Run(true, START, Opened(true, []) + [Resume(0, Reply(502, Undecodable))]
                                      + [Resume(0, ErrorBodyRead(Undecodable))]);
            0 in s.tasks && s.tasks[0].phase.Finished? && s.log == []
  {
    OpenedState(false, []);
    OpenedState(true, []);
    RunSnoc(true, Opened(false, []), Resume(0, Reply(502, Undecodable)));
    RunSnoc(true, Opened(true, []), Resume(0, Reply(502, Undecodable)));
    RunSnoc(true, Opened(true, []) + [Resume(0, Reply(502, Undecodable))], Resume(0, ErrorBodyRead(Undecodable)));
    hide Run, Opened;
  }

  /** A stream broken off by a data line that cannot be decoded: logged, as an error without a type,
      although nobody closed the generator. */
  lemma UndecodableLineLogsUntyped()
    ensures var actions := Opened(true, []) + [Resume(0, Reply(200, Decoded({})))] + [Resume(0, StreamStarted)]
                           + [Resume(0, StreamEnded(Unreadable, {}))] + [Resume(0, UpstreamClosed)];
            var s := Run(true, START, actions);
            && |s.log| == 1 && s.log[0].ModelCall?
            && s.log[0].call.status == StatusError && s.log[0].call.errorType == None
            && s.log[0].call.httpStatus == Some(200)
  {
    StreamingState();
    var a := Opened(true, []) + [Resume(0, Reply(200, Decoded({})))] + [Resume(0, StreamStarted)];
    RunSnoc(true, a, Resume(0, StreamEnded(Unreadable, {})));
    RunSnoc(true, a + [Resume(0, StreamEnded(Unreadable, {}))], Resume(0, UpstreamClosed));
    hide Run, Opened;
  }

  lemma StreamingState()
    ensures var s := Run(true, START, Opened(true, []) + [Resume(0, Reply(200, Decoded({})))] + [Resume(0, StreamStarted)]);
            && s.log == []
            && s.tasks == map[0 := Task(Chat, Streaming, FRESH_CALL.(texts := NO_TEXTS.(request := {[]}),
                                        upstreamHttpStatus := Some(200), httpStatus := Some(200)))]
  {
    OpenedState(true, []);
    RunSnoc(true, Opened(true, []), Resume(0, Reply(200, Decoded({}))));
    RunSnoc(true, Opened(true, []) + [Resume(0, Reply(200, Decoded({})))], Resume(0, StreamStarted));
    hide Run, Opened;
  }

  /** Nothing a request has logged is ever changed by what others do: the log only extends. */
  lemma {:induction false} LogOnlyExtends(requireAttribution: bool, actions: seq<Action>, k: nat)
    requires k <= |actions|
    ensures Run(requireAttribution, START, actions[..k]).log <= Run(requireAttribution, START, actions).log
    decreases |actions|
  {
    if k < |actions| {
      var before := actions[..|actions| - 1];
      LogOnlyExtends(requireAttribution, before, k);
      assert before[..k] == actions[..k];
      RunKeepsInv(requireAttribution, before);
      NextKeepsInv(requireAttribution, Run(requireAttribution, START, before), actions[|actions| - 1]);
    } else {
      assert actions[..k] == actions;
    }
  }

  /** The two states know the same of a request. */
  predicate SameFor(s: State, t: State, id: RequestId) {
    (id in s.tasks <==> id in t.tasks) && (id in s.tasks ==> s.tasks[id] == t.tasks[id])
  }

  lemma NextOfAnother(requireAttribution: bool, s: State, a: Action, id: RequestId)
    requires !Concerns(a, id)
    ensures SameFor(Next(requireAttribution, s, a), s, id)
  {
    hide Step, Entries;
  }

  lemma NextOfSame(requireAttribution: bool, s: State, t: State, a: Action, id: RequestId)
    requires Concerns(a, id) && SameFor(s, t, id)
    ensures SameFor(Next(requireAttribution, s, a), Next(requireAttribution, t, a), id)
  {
    hide Step, Entries;
  }

  /** Requests do not disturb each other: what becomes of one request depends only on its own
      arrival and answers, whatever is interleaved with them. */
  lemma {:induction false} RequestsAreIndependent(requireAttribution: bool, actions: seq<Action>, id: RequestId)
    ensures SameFor(Run(requireAttribution, START, actions), Run(requireAttribution, START, Own(actions, id)), id)
    decreases |actions|
  {
    if actions != [] {
      var before, last := actions[..|actions| - 1], actions[|actions| - 1];
      RequestsAreIndependent(requireAttribution, before, id);
      RunSnoc(requireAttribution, before, last);
      RunSnoc(requireAttribution, Own(before, id), last);
      OwnSnoc(before, last, id);
      assert actions == before + [last];
      hide Run, Next, Own;
      if Concerns(last, id) {
        NextOfSame(requireAttribution, Run(requireAttribution, START, before),
                   Run(requireAttribution, START, Own(before, id)), last, id);
      } else {
        NextOfAnother(requireAttribution, Run(requireAttribution, START, before), last, id);
      }
    }
  }

  lemma OwnSnoc(actions: seq<Action>, a: Action, id: RequestId)
    ensures Own(actions + [a], id) == if Concerns(a, id) then Own(actions, id) + [a] else Own(actions, id)
  {
    assert (actions + [a])[..|actions|] == actions;
  }

  predicate Concerns(a: Action, id: RequestId) {
    !a.Note? && a.id == id
  }

  function Own(actions: seq<Action>, id: RequestId): (r: seq<Action>) {
    if actions == [] then []
    else
      var last := actions[|actions| - 1];
      Own(actions[..|actions| - 1], id) + (if Concerns(last, id) then [last] else [])
  }

  /** A request is never stuck: until it is finished some answer lets it go on. */
  lemma NeverStuck(requireAttribution: bool, t: Task)
    requires TaskOk(t)
    ensures t.phase.Finished? <==> forall input :: Step(requireAttribution, t, input).None?
  {
    match t.phase
    case Arrived => assert Step(requireAttribution, t, AdmitRaised).Some?;
    case ReadingBody => assert Step(requireAttribution, t, BodyRaised).Some?;
    case AwaitingReply => assert Step(requireAttribution, t, ReplyRaised).Some?;
    case Delivering => assert Step(requireAttribution, t, ResponseSent).Some?;
    case AwaitingStream => assert Step(requireAttribution, t, ReplyRaised).Some?;
    case ReadingErrorBody => assert Step(requireAttribution, t, ErrorBodyRaised).Some?;
    case StreamReady => assert Step(requireAttribution, t, StreamStarted).Some?;
    case Streaming => assert Step(requireAttribution, t, StreamEnded(Exhausted, {})).Some?;
    case Closing(how) => assert Step(requireAttribution, t, UpstreamClosed).Some?;
    case Finished(_, _) =>
  }
}
