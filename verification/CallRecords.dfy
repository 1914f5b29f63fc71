/** The mutable call record of the proxy: every segment of a request and the whole stream loop,
    proved against ModelCalls.Step and StreamEvents. */
module CallRecords {
  import opened Common
  import opened SseFraming
  import opened Text
  import opened StreamEvents
  import opened ModelCalls

  class CallLog {
    var entries: seq<LogEntry>

    constructor ()
      ensures entries == []
    {
      entries := [];
    }
  }

  /** How the consumer and the upstream treat a started stream: the upstream delivers all its
      chunks and ends; it fails after them, in a handled way or not; or the consumer closes the
      generator while it is suspended at its `after`-th yield. */
  datatype Fate = Completes | Fails(how: StreamEnd) | ConsumerCloses(after: nat)

  class CallRecord {
    const id: RequestId
    const endpoint: Endpoint
    const log: CallLog
    var phase: Phase
    var status: Status
    var httpStatus: Option<int>
    var upstreamHttpStatus: Option<int>
    var errorType: Option<ErrorType>
    var texts: Texts
    var logged: bool
    var upstreamModel: Option<Text>
    var completionText: seq<Text>
    var finishReason: Option<Text>
    var usage: map<Counter, int>
    var usageFromUpstream: bool
    var responseBytes: nat

    constructor (id: RequestId, endpoint: Endpoint, log: CallLog)
      ensures Snapshot() == Task(endpoint, Arrived, FRESH_CALL)
      ensures this.id == id && this.log == log
      ensures Learnt() == Facts(None, [], None, map[], false) && responseBytes == 0
    {
      this.id, this.endpoint, this.log := id, endpoint, log;
      phase := Arrived;
      status, httpStatus, upstreamHttpStatus, errorType, texts, logged := StatusError, None, None, None, NO_TEXTS, false;
      upstreamModel, completionText, finishReason := None, [], None;
      usage, usageFromUpstream, responseBytes := map[], false, 0;
    }

    function CallValue(): Call
      reads this
    {
      Call(status, httpStatus, upstreamHttpStatus, errorType, texts, logged)
    }

    function Snapshot(): Task
      reads this
    {
      Task(endpoint, phase, CallValue())
    }

    function Learnt(): Facts
      reads this
    {
      Facts(upstreamModel, completionText, finishReason, usage, usageFromUpstream)
    }

    method Fail(http: int, e: ErrorType)
      modifies this`status, this`httpStatus, this`errorType
      ensures CallValue() == Failed(old(CallValue()), http, e)
    {
      status := StatusError;
      httpStatus := Some(http);
      errorType := Some(e);
    }

    /** Flushes the record, once; the append raises when the record cannot be encoded. */
    method Log() returns (raised: bool)
      modifies this`logged, log
      ensures logged && CallValue() == Logged(old(CallValue()))
      ensures log.entries == old(log.entries) + Entries(id, old(CallValue()), CallValue())
      ensures raised <==> !old(logged) && !CanBeWritten(CallValue())
    {
      if logged {
        return false;
      }
      logged := true;
      if !CanBeWritten(CallValue()) {
        return true;
      }
      log.entries := log.entries + [ModelCall(id, CallValue())];
      return false;
    }

    /** What a segment does when the step machine says `next`: nothing if that is nothing. */
    twostate predicate Follows(next: Option<Task>, taken: bool)
      reads this, log
    {
      && Learnt() == old(Learnt()) && responseBytes == old(responseBytes)
      && (taken <==> next.Some?)
      && (!taken ==> Snapshot() == old(Snapshot()) && log.entries == old(log.entries))
      && (taken ==> next == Some(Snapshot())
                    && log.entries == old(log.entries) + Entries(id, old(CallValue()), CallValue()))
    }

    /** One segment of the request handler, from the await that answered `input` to the next one. */
    method Resume(requireAttribution: bool, input: Input) returns (taken: bool)
      modifies this, log
      ensures Learnt() == old(Learnt()) && responseBytes == old(responseBytes)
      ensures taken <==> Step(requireAttribution, old(Snapshot()), input).Some?
      ensures !taken ==> Snapshot() == old(Snapshot()) && log.entries == old(log.entries)
      ensures taken ==> Step(requireAttribution, old(Snapshot()), input) == Some(Snapshot())
      ensures taken ==> log.entries == old(log.entries) + Entries(id, old(CallValue()), CallValue())
    {
      hide Step, Entries;
      match phase {
        case Arrived => taken := OnArrival(requireAttribution, input);
        case ReadingBody => taken := OnBody(requireAttribution, input);
        case AwaitingReply => taken := OnReply(requireAttribution, input);
        case AwaitingStream => taken := OnStreamReply(requireAttribution, input);
        case Delivering => taken := OnDelivery(requireAttribution, input);
        case ReadingErrorBody => taken := OnErrorBody(requireAttribution, input);
        case StreamReady => taken := OnStreamReady(requireAttribution, input);
        case Streaming => taken := OnStreamEnd(requireAttribution, input);
        case Closing(_) => taken := OnClosed(requireAttribution, input);
        case Finished(_, _) =>
          FinishedForGood(requireAttribution, Snapshot(), input);
          taken := false;
      }
    }

    method OnArrival(requireAttribution: bool, input: Input) returns (taken: bool)
      requires phase.Arrived?
      modifies this, log
      ensures Follows(Step(requireAttribution, old(Snapshot()), input), taken)
    {
      taken := input.Admit? || input.AdmitRaised?;
      if input.Admit? {
        Admission(requireAttribution, input.attribution);
      } else if taken {
        phase := Finished(input, None);
      }
      hide AfterAdmit, CanBeWritten;
    }

    method OnBody(requireAttribution: bool, input: Input) returns (taken: bool)
      requires phase.ReadingBody?
      modifies this, log
      ensures Follows(Step(requireAttribution, old(Snapshot()), input), taken)
    {
      hide CanBeWritten;
      taken := input.BodyRead? || input.BodyRaised?;
      if input.BodyRead? {
        if endpoint.Models? {
          phase := AwaitingReply;
        } else if input.body.NotAnObject? {
          Reject(input, 400, InvalidRequestBody);
        } else {
          texts := texts.(request := input.body.texts);
          phase := if input.body.stream && (endpoint.Chat? || endpoint.Responses?) then AwaitingStream else AwaitingReply;
        }
      } else if taken {
        phase := Finished(input, None);
      }
    }

    method OnReply(requireAttribution: bool, input: Input) returns (taken: bool)
      requires phase.AwaitingReply?
      modifies this, log
      ensures Follows(Step(requireAttribution, old(Snapshot()), input), taken)
    {
      hide CanBeWritten;
      taken := input.Reply? || input.ReplyTimedOut? || input.ReplyUnreachable? || input.ReplyRaised?;
      if input.Reply? {
        upstreamHttpStatus, httpStatus := Some(input.status), Some(input.status);
        match input.content {
          case Undecodable => phase := Finished(input, None);
          case Decoded(found) =>
            texts := texts.(reply := found);
            if IsOk(input.status) {
              status := StatusSuccess;
            } else {
              Fail(input.status, UpstreamError);
            }
            phase := Delivering;
        }
      } else if taken {
        NoReply(input);
      }
    }

    method OnStreamReply(requireAttribution: bool, input: Input) returns (taken: bool)
      requires phase.AwaitingStream?
      modifies this, log
      ensures Follows(Step(requireAttribution, old(Snapshot()), input), taken)
    {
      hide CanBeWritten;
      taken := input.Reply? || input.ReplyTimedOut? || input.ReplyUnreachable? || input.ReplyRaised?;
      if input.Reply? {
        upstreamHttpStatus := Some(input.status);
        if IsOk(input.status) {
          httpStatus := Some(input.status);
          phase := StreamReady;
        } else {
          phase := ReadingErrorBody;
        }
      } else if taken {
        NoReply(input);
      }
    }

    method OnDelivery(requireAttribution: bool, input: Input) returns (taken: bool)
      requires phase.Delivering?
      modifies this, log
      ensures Follows(Step(requireAttribution, old(Snapshot()), input), taken)
    {
      hide CanBeWritten;
      taken := input.ResponseSent? || input.ResponseLost?;
      if taken {
        phase := Finished(input, None);
      }
      if input.ResponseSent? {
        var _ := Log();
      }
    }

    method OnErrorBody(requireAttribution: bool, input: Input) returns (taken: bool)
      requires phase.ReadingErrorBody?
      modifies this, log
      ensures Follows(Step(requireAttribution, old(Snapshot()), input), taken)
    {
      hide CanBeWritten;
      taken := input.ErrorBodyRaised?
               || (input.ErrorBodyRead? && (input.content.Undecodable? || upstreamHttpStatus.Some?));
      if taken && input.ErrorBodyRead? && input.content.Decoded? {
        texts := texts.(reply := input.content.texts);
        Reject(input, upstreamHttpStatus.value, UpstreamError);
      } else if taken {
        phase := Finished(input, None);
      }
    }

    method OnStreamReady(requireAttribution: bool, input: Input) returns (taken: bool)
      requires phase.StreamReady?
      modifies this, log
      ensures Follows(Step(requireAttribution, old(Snapshot()), input), taken)
    {
      hide CanBeWritten;
      taken := input.StreamStarted? || input.StreamAbandoned?;
      if taken {
        phase := if input.StreamStarted? then Streaming else Finished(input, None);
      }
    }

    method OnStreamEnd(requireAttribution: bool, input: Input) returns (taken: bool)
      requires phase.Streaming?
      modifies this, log
      ensures Follows(Step(requireAttribution, old(Snapshot()), input), taken)
    {
      hide CanBeWritten;
      taken := input.StreamEnded?;
      if taken {
        StopStreaming(input.how, input.texts);
      }
    }

    method OnClosed(requireAttribution: bool, input: Input) returns (taken: bool)
      requires phase.Closing?
      modifies this, log
      ensures Follows(Step(requireAttribution, old(Snapshot()), input), taken)
    {
      hide CanBeWritten;
      taken := input.UpstreamClosed? || input.UpstreamCloseRaised?;
      if taken {
        phase := Finished(input, Some(phase.how));
      }
      if input.UpstreamClosed? {
        var _ := Log();
      }
    }

    method Admission(requireAttribution: bool, a: Attribution)
      requires phase == Arrived
      modifies this`phase, this`status, this`httpStatus, this`errorType, this`texts, this`logged, log
      ensures Snapshot() == AfterAdmit(requireAttribution, old(Snapshot()), a)
      ensures log.entries == old(log.entries) + Entries(id, old(CallValue()), CallValue())
    {
      hide CanBeWritten;
      match a {
        case Malformed => Reject(Admit(a), 400, InvalidAttribution);
        case Resolved(named, found) =>
          texts := texts.(attribution := found);
          if requireAttribution && !named && !endpoint.Models? {
            Reject(Admit(a), 400, UnattributedRequest);
          } else if endpoint.Unsupported? {
            Reject(Admit(a), 404, UnsupportedEndpoint);
          } else {
            phase := ReadingBody;
          }
      }
    }

    method Reject(input: Input, http: int, e: ErrorType)
      modifies this`phase, this`status, this`httpStatus, this`errorType, this`logged, log
      ensures Snapshot() == Rejected(old(Snapshot()), input, http, e)
      ensures log.entries == old(log.entries) + Entries(id, old(CallValue()), CallValue())
    {
      phase := Finished(input, None);
      Fail(http, e);
      var _ := Log();
    }

    method NoReply(input: Input)
      requires input.ReplyTimedOut? || input.ReplyUnreachable? || input.ReplyRaised?
      modifies this`phase, this`status, this`httpStatus, this`errorType, this`logged, log
      ensures Snapshot() == if input.ReplyTimedOut? then Rejected(old(Snapshot()), input, 504, UpstreamTimeout)
                            else if input.ReplyUnreachable? then Rejected(old(Snapshot()), input, 502, UpstreamUnreachable)
                            else Dropped(old(Snapshot()), input, None)
      ensures log.entries == old(log.entries) + Entries(id, old(CallValue()), CallValue())
    {
      hide CanBeWritten;
      if input.ReplyTimedOut? {
        Reject(input, 504, UpstreamTimeout);
      } else if input.ReplyUnreachable? {
        Reject(input, 502, UpstreamUnreachable);
      } else {
        phase := Finished(input, None);
      }
    }

    /** The strings of the reply that are in the record are set when the stream stops. */
    method StopStreaming(how: StreamEnd, found: set<Text>)
      modifies this`phase, this`status, this`httpStatus, this`errorType, this`texts
      ensures phase == Closing(how) && CallValue() == AfterStreamEnd(WithReply(old(CallValue()), found), how)
    {
      texts := texts.(reply := found);
      match how {
        case Exhausted => status := StatusSuccess;
        case Cancelled => Fail(499, ClientDisconnected);
        case TimedOut => Fail(504, UpstreamTimeout);
        case Broken => Fail(502, UpstreamStreamError);
        case Closed =>
        case Unreadable =>
        case Raised =>
      }
      phase := Closing(how);
    }

    // ---- stream body -----------------------------------------------------

    method AbsorbUsage(u: Usage)
      modifies this`usage, this`usageFromUpstream
      ensures u == map[] ==> usage == old(usage) && usageFromUpstream == old(usageFromUpstream)
      ensures u != map[] ==> usage == Normalised(u) && usageFromUpstream
    {
      if u != map[] {
        usage := map k | k in u && u[k].Some? :: u[k].value;
        if PromptTokens !in usage && InputTokens in usage {
          usage := usage[PromptTokens := usage[InputTokens]];
        }
        if CompletionTokens !in usage && OutputTokens in usage {
          usage := usage[CompletionTokens := usage[OutputTokens]];
        }
        usageFromUpstream := true;
        if TotalTokens !in usage && PromptTokens in usage {
          usage := usage[TotalTokens :=
            usage[PromptTokens] + (if CompletionTokens in usage then usage[CompletionTokens] else 0)];
        }
      }
    }

    method AbsorbChoices(choices: seq<Option<Choice>>)
      modifies this`completionText, this`finishReason
      ensures completionText == old(completionText) + DeltasOf(choices)
      ensures finishReason == LastOf(old(finishReason), FinishesOf(choices))
    {
      hide DeltasOf, FinishesOf, LastOf;
      NoChoiceLeft(choices, completionText, finishReason);
      var i := 0;
      while i < |choices|
        invariant 0 <= i <= |choices|
        invariant completionText + DeltasOf(choices[i..]) == old(completionText) + DeltasOf(choices)
        invariant LastOf(finishReason, FinishesOf(choices[i..])) == LastOf(old(finishReason), FinishesOf(choices))
      {
        NextChoice(choices, i, completionText, finishReason);
        match choices[i] {
          case None =>
          case Some(ch) =>
            if ch.content.Some? {
              completionText := completionText + [ch.content.value];
            }
            if ch.finishReason.Some? && ch.finishReason.value != [] {
              finishReason := ch.finishReason;
            }
        }
        i := i + 1;
      }
    }

    method AbsorbPayload(p: Payload)
      modifies this`upstreamModel, this`completionText, this`finishReason, this`usage, this`usageFromUpstream
      ensures Learnt() == Summary(old(Learnt()), [p])
    {
      if p.model.Some? && upstreamModel.None? {
        upstreamModel := p.model;
      }
      AbsorbChoices(p.choices);
      if p.usage.Some? && p.usage.value != map[] {
        AbsorbUsage(p.usage.value);
      } else if p.responseUsage.Some? {
        AbsorbUsage(p.responseUsage.value);
      }
      ListsOfOne(p);
    }

    /** Learns from one event, up to where a line raises; `keep` says whether the client may see it. */
    method ProcessEvent(parse: Parser, requested: bool, raw: Bytes) returns (keep: bool, raised: bool)
      modifies this`upstreamModel, this`completionText, this`finishReason, this`usage, this`usageFromUpstream
      ensures raised <==> !Readable(parse, raw)
      ensures !raised ==> keep == Keeps(parse, requested, raw)
      ensures !raised ==>
                (keep <==> requested || forall p | p in Payloads(parse, raw) :: !(p.usage.Some? && p.usage.value != map[] && p.choices == []))
      ensures !raised ==> Learnt() == Summary(old(Learnt()), Payloads(parse, raw))
      ensures raised ==> Learnt() == Summary(old(Learnt()), Opening(parse, raw))
    {
      hide Lines, LineRaises, LinesReadable, LinesPayloads, LinePayload, Summary, NoneHides, LinesBeforeRaise,
           RaisedPayload;
      keep, raised := true, false;
      var lines := Lines(raw);
      NoLineYet(parse, lines, Learnt());
      var i := 0;
      while i < |lines|
        invariant 0 <= i <= |lines|
        invariant LinesReadable(parse, lines[..i])
        invariant Learnt() == Summary(old(Learnt()), LinesPayloads(parse, lines[..i]))
        invariant keep == (requested || NoneHides(LinesPayloads(parse, lines[..i])))
      {
        if LineRaises(parse, lines[i]) {
          var partial := RaisedPayload(parse, lines[i]);
          LineOpens(parse, lines, i, old(Learnt()));
          if partial != [] {
            AbsorbPayload(partial[0]);
          }
          return keep, true;
        }
        NextLine(parse, lines, i, old(Learnt()));
        NextReadable(parse, lines, i);
        var found := LinePayload(parse, lines[i]);
        if found != [] {
          AbsorbPayload(found[0]);
          if !requested && UsageOnly(found[0]) {
            keep := false;
          }
        }
        i := i + 1;
      }
      assert lines[..i] == lines;
      KeepsMeans(parse, requested, raw);
    }

    /** The whole generator, from its first step to its last. `sent` is what it yielded, `received` the
        number of chunks it took. */
    method StreamBody(parse: Parser, requested: bool, chunks: seq<Bytes>, fate: Fate, closeFails: bool)
      returns (sent: seq<Bytes>, how: StreamEnd, ghost received: nat)
      requires phase == Streaming && !logged
      requires fate.Fails? ==> fate.how.Cancelled? || fate.how.TimedOut? || fate.how.Broken? || fate.how.Raised?
      modifies this, log
      ensures how == Ending(parse, requested, fate, Flatten(chunks))
      ensures sent == Kept(parse, requested, Processed(parse, requested, fate, Flatten(chunks)))
      ensures Learnt() == Summary(old(Learnt()), Taught(parse, requested, fate, Flatten(chunks)))
      ensures received <= |chunks| && (!how.Closed? && !how.Unreadable? ==> received == |chunks|)
      ensures received < |chunks| ==> StopsIn(chunks, received, TakenBytes(parse, requested, fate, Flatten(chunks)))
      ensures responseBytes == old(responseBytes) + |Flatten(chunks[..received])|
      ensures var call := AfterStreamEnd(WithReply(old(CallValue()), FactTexts(Learnt())), how);
              CallValue() == if closeFails then call else Logged(call)
      ensures phase == Finished(if closeFails then UpstreamCloseRaised else UpstreamClosed, Some(how))
      ensures log.entries == old(log.entries) + Entries(id, old(CallValue()), CallValue())
    {
      hide Frames, Residue, Kept, Payloads, Summary, Flatten, Ending, Processed, Taught, AllReadable, IsFraming, FactTexts, CanBeWritten,
           StopsIn, TakenBytes;
      sent, how, received := ReadStream(parse, requested, chunks, fate);
      StopStreaming(how, FactTexts(Learnt()));
      phase := Finished(if closeFails then UpstreamCloseRaised else UpstreamClosed, Some(how));
      if !closeFails {
        var _ := Log();
      }
    }

    /** The chunk loop, up to the point where the generator stops. */
    method ReadStream(parse: Parser, requested: bool, chunks: seq<Bytes>, fate: Fate)
      returns (sent: seq<Bytes>, how: StreamEnd, ghost received: nat)
      modifies this`responseBytes, this`upstreamModel, this`completionText, this`finishReason, this`usage, this`usageFromUpstream
      ensures how == Ending(parse, requested, fate, Flatten(chunks))
      ensures sent == Kept(parse, requested, Processed(parse, requested, fate, Flatten(chunks)))
      ensures Learnt() == Summary(old(Learnt()), Taught(parse, requested, fate, Flatten(chunks)))
      ensures received <= |chunks| && (!how.Closed? && !how.Unreadable? ==> received == |chunks|)
      ensures received < |chunks| ==> StopsIn(chunks, received, TakenBytes(parse, requested, fate, Flatten(chunks)))
      ensures responseBytes == old(responseBytes) + |Flatten(chunks[..received])|
    {
      hide Frames, Residue, Kept, Payloads, Summary, Flatten, Ending, Processed, Taught, AllReadable, IsFraming, TakenBytes;
      var buf: Bytes := [];
      sent := [];
      ghost var events: seq<Bytes> := [];
      ghost var all := Flatten(chunks);
      var i := 0;
      NothingYet(parse, requested, chunks, Learnt());
      while i < |chunks|
        invariant 0 <= i <= |chunks|
        invariant IsFraming(events, buf, Flatten(chunks[..i]))
        invariant Underway(parse, requested, fate, events, sent)
        invariant Learnt() == Summary(old(Learnt()), Payloads(parse, Flatten(events)))
        invariant responseBytes == old(responseBytes) + |Flatten(chunks[..i])|
      {
        responseBytes := responseBytes + |chunks[i]|;
        buf := buf + chunks[i];
        NextChunk(chunks, i, events, buf, chunks[i]);
        var halt;
        sent, buf, events, halt := Drain(parse, requested, buf, sent, fate, events, |buf| - |chunks[i]|, Flatten(chunks[..i + 1]), all,
                                         old(Learnt()));
        i := i + 1;
        if halt.Some? {
          return sent, halt.value, i;
        }
      }
      received := i;
      assert chunks[..i] == chunks;
      sent, how := LastEvent(parse, requested, buf, sent, fate, events, all, old(Learnt()));
    }

    /** The inner loop: processes every complete event in the buffer. */
    method Drain(parse: Parser, requested: bool, pending: Bytes, yielded: seq<Bytes>, fate: Fate,
                 ghost before: seq<Bytes>, ghost seen: nat, ghost received: Bytes, ghost all: Bytes, ghost start: Facts)
      returns (sent: seq<Bytes>, buf: Bytes, ghost events: seq<Bytes>, halt: Option<StreamEnd>)
      requires Cut(before, pending, received) && received <= all
      requires seen <= |pending| && NoBlankLine(pending[..seen])
      requires Underway(parse, requested, fate, before, yielded)
      requires Learnt() == Summary(start, Payloads(parse, Flatten(before)))
      modifies this`upstreamModel, this`completionText, this`finishReason, this`usage, this`usageFromUpstream
      ensures halt.None? ==> IsFraming(events, buf, received) && Underway(parse, requested, fate, events, sent)
      ensures halt.None? ==> Learnt() == Summary(start, Payloads(parse, Flatten(events)))
      ensures halt.Some? ==>
                && halt.value == Ending(parse, requested, fate, all) && (halt.value.Closed? || halt.value.Unreadable?)
                && sent == Kept(parse, requested, Processed(parse, requested, fate, all))
                && Learnt() == Summary(start, Taught(parse, requested, fate, all))
                && |Flatten(before)| + seen < TakenBytes(parse, requested, fate, all) <= |received|
    {
      hide Frames, Residue, Kept, Keeps, Payloads, Summary, Flatten, Ending, Processed, Taught, AllReadable, Readable, Opening, IsEvent, Events,
           TakenBytes, NoBlankLine;
      sent, buf, events, halt := yielded, pending, before, None;
      while true
        invariant halt.None? && Cut(events, buf, received)
        invariant if events == before then buf == pending else |Flatten(events)| > |Flatten(before)| + seen
        invariant Underway(parse, requested, fate, events, sent)
        invariant Learnt() == Summary(start, Payloads(parse, Flatten(events)))
        decreases |buf|
      {
        var idx := Find(buf);
        if idx < 0 {
          CutIsFraming(events, buf, received);
          return;
        }
        var eventBytes := buf[..idx + 2];
        var rest := buf[idx + 2..];
        assert buf == eventBytes + rest;
        var keep, raised := ProcessEvent(parse, requested, eventBytes);
        AppendEvent(parse, requested, events, eventBytes, rest, received, start);
        if events == before {
          NotSeenBefore(pending, seen, eventBytes);
        }
        PrefixOfSource(fate, events + [eventBytes], rest, received, all);
        buf := rest;
        if raised {
          halt := Some(Unreadable);
          RaisedHere(parse, requested, fate, all, events, eventBytes, sent);
          SummaryAppend(start, Payloads(parse, Flatten(events)), Opening(parse, eventBytes));
          return;
        }
        OneMoreEvent(parse, requested, fate, events, eventBytes, sent, keep);
        events := events + [eventBytes];
        if keep {
          sent := sent + [eventBytes];
          if fate.ConsumerCloses? && |sent| == fate.after {
            halt := Some(Closed);
            ClosedHere(parse, requested, fate, all, events);
            return;
          }
        }
      }
    }

    /** What is left in the buffer when the upstream is exhausted is one more event. */
    method LastEvent(parse: Parser, requested: bool, buf: Bytes, yielded: seq<Bytes>, fate: Fate,
                     ghost events: seq<Bytes>, ghost all: Bytes, ghost start: Facts)
      returns (sent: seq<Bytes>, how: StreamEnd)
      requires IsFraming(events, buf, all)
      requires Underway(parse, requested, fate, events, yielded)
      requires Learnt() == Summary(start, Payloads(parse, Flatten(events)))
      modifies this`upstreamModel, this`completionText, this`finishReason, this`usage, this`usageFromUpstream
      ensures how == Ending(parse, requested, fate, all)
      ensures sent == Kept(parse, requested, Processed(parse, requested, fate, all))
      ensures Learnt() == Summary(start, Taught(parse, requested, fate, all))
    {
      hide Frames, Residue, Kept, Keeps, Payloads, Summary, Flatten, Ending, Processed, Taught, AllReadable, Readable, Opening, IsEvent, IsFraming, Events;
      sent := yielded;
      WholeSource(fate, events, buf, all);
      if fate.Fails? || buf == [] {
        EndsHere(parse, requested, fate, all, events, sent);
        return sent, IfUndisturbed(fate);
      }
      var keep, raised := ProcessEvent(parse, requested, buf);
      AppendLast(parse, requested, events, buf, all, start);
      if raised {
        RaisedHere(parse, requested, fate, all, events, buf, sent);
        SummaryAppend(start, Payloads(parse, Flatten(events)), Opening(parse, buf));
        return sent, Unreadable;
      }
      OneMoreEvent(parse, requested, fate, events, buf, sent, keep);
      if keep {
        sent := sent + [buf];
        if fate.ConsumerCloses? && |sent| == fate.after {
          ClosedHere(parse, requested, fate, all, events + [buf]);
          return sent, Closed;
        }
      }
      EndsHere(parse, requested, fate, all, events + [buf], sent);
      how := IfUndisturbed(fate);
    }
  }

  predicate NoneHides(ps: seq<Payload>) {
    forall p | p in ps :: !UsageOnly(p)
  }

  /** What is still to be learnt from the choices, one choice at a time. */
  lemma NextChoice(choices: seq<Option<Choice>>, i: nat, text: seq<Text>, finish: Option<Text>)
    requires i < |choices|
    ensures var c := choices[i];
            && text + DeltasOf(choices[i..])
               == (if c.Some? && c.value.content.Some? then text + [c.value.content.value] else text) + DeltasOf(choices[i + 1..])
            && LastOf(finish, FinishesOf(choices[i..]))
               == LastOf(if c.Some? && c.value.finishReason.Some? && c.value.finishReason.value != [] then c.value.finishReason else finish,
                         FinishesOf(choices[i + 1..]))
  {
    assert choices[i..][1..] == choices[i + 1..];
  }

  lemma NoChoiceLeft(choices: seq<Option<Choice>>, text: seq<Text>, finish: Option<Text>)
    ensures choices[0..] == choices && choices[|choices|..] == []
    ensures DeltasOf([]) == [] && FinishesOf([]) == [] && LastOf(finish, []) == finish && text + [] == text
    ensures forall f: Option<Text> :: LastOf(f, []) == f
  {
  }

  lemma NoLineYet(parse: Parser, lines: seq<Bytes>, f: Facts)
    ensures LinesReadable(parse, lines[..0]) && NoneHides(LinesPayloads(parse, lines[..0]))
    ensures Summary(f, LinesPayloads(parse, lines[..0])) == f
  {
    assert f.completionText + [] == f.completionText;
  }

  /** What has been learnt when the i-th line raises. */
  lemma LineOpens(parse: Parser, lines: seq<Bytes>, i: nat, f: Facts)
    requires i < |lines| && LineRaises(parse, lines[i]) && LinesReadable(parse, lines[..i])
    ensures !LinesReadable(parse, lines)
    ensures var before, partial := LinesPayloads(parse, lines[..i]), RaisedPayload(parse, lines[i]);
            Summary(f, OpeningOf(parse, lines))
            == if partial == [] then Summary(f, before) else Summary(Summary(f, before), [partial[0]])
  {
    BeforeRaise(parse, lines, i);
    var before, partial := LinesPayloads(parse, lines[..i]), RaisedPayload(parse, lines[i]);
    if partial == [] {
      assert before + partial == before;
    } else {
      assert partial == [partial[0]];
      SummaryAppend(f, before, partial);
    }
  }

  lemma NextReadable(parse: Parser, lines: seq<Bytes>, i: nat)
    requires i < |lines| && LinesReadable(parse, lines[..i]) && !LineRaises(parse, lines[i])
    ensures LinesReadable(parse, lines[..i + 1])
  {
    assert lines[..i + 1] == lines[..i] + [lines[i]];
    ReadableJoin(parse, lines[..i], [lines[i]]);
  }

  lemma KeepsMeans(parse: Parser, requested: bool, raw: Bytes)
    ensures Keeps(parse, requested, raw) <==> requested || NoneHides(LinesPayloads(parse, Lines(raw)))
  {
  }

  lemma {:induction false} NextLine(parse: Parser, lines: seq<Bytes>, i: nat, f: Facts)
    requires i < |lines|
    ensures var before, found, after := LinesPayloads(parse, lines[..i]), LinePayload(parse, lines[i]), LinesPayloads(parse, lines[..i + 1]);
            && after == before + found
            && Summary(f, after) == (if found == [] then Summary(f, before) else Summary(Summary(f, before), [found[0]]))
            && (NoneHides(after) <==> NoneHides(before) && (found != [] ==> !UsageOnly(found[0])))
  {
    assert lines[..i + 1] == lines[..i] + [lines[i]];
    LinesPayloadsAppend(parse, lines[..i], [lines[i]]);
    var before, found := LinesPayloads(parse, lines[..i]), LinePayload(parse, lines[i]);
    OneLine(parse, lines[i]);
    if found == [] {
      assert before + found == before;
    } else {
      assert found == [found[0]];
      SummaryAppend(f, before, found);
      assert forall p | p in before :: p in before + found;
      assert found[0] in before + found;
    }
  }

  lemma OneLine(parse: Parser, line: Bytes)
    ensures LinesPayloads(parse, [line]) == LinePayload(parse, line)
  {
    assert [line][1..] == [];
  }

  lemma FinishedForGood(requireAttribution: bool, t: Task, input: Input)
    requires t.phase.Finished?
    ensures Step(requireAttribution, t, input).None?
  {
  }

  // ---- what becomes of a stream, as functions of its bytes ---------------

  /** The strings of the record that a stream provides; the completion text is not one of them. */
  function FactTexts(f: Facts): (r: set<Text>) {
    (if f.upstreamModel.Some? then {f.upstreamModel.value} else {})
    + (if f.finishReason.Some? then {f.finishReason.value} else {})
    + (set k | k in f.usage && k.Detail? :: k.name)
  }

  /** The events that would be processed if none raised and the consumer stayed. */
  function Source(fate: Fate, b: Bytes): (r: seq<Bytes>) {
    if fate.Fails? then Frames(b) else Events(b)
  }

  predicate ClosesWithin(parse: Parser, requested: bool, fate: Fate, events: seq<Bytes>) {
    fate.ConsumerCloses? && 1 <= fate.after <= |Kept(parse, requested, events)|
  }

  /** The events that are processed to their end. */
  function Processed(parse: Parser, requested: bool, fate: Fate, b: Bytes): (r: seq<Bytes>) {
    var events := ReadablePrefix(parse, Source(fate, b));
    if ClosesWithin(parse, requested, fate, events) then Consumed(parse, requested, events, fate.after) else events
  }

  function IfUndisturbed(fate: Fate): (how: StreamEnd) {
    match fate
    case Completes => Exhausted
    case Fails(e) => e
    case ConsumerCloses(_) => Exhausted
  }

  function Ending(parse: Parser, requested: bool, fate: Fate, b: Bytes): (how: StreamEnd) {
    var events := ReadablePrefix(parse, Source(fate, b));
    if ClosesWithin(parse, requested, fate, events) then Closed
    else if events != Source(fate, b) then Unreadable
    else IfUndisturbed(fate)
  }

  /** How far into the stream the last event reaches that was taken up, whether or not it raised. */
  function TakenBytes(parse: Parser, requested: bool, fate: Fate, b: Bytes): (n: nat) {
    var events, source := Processed(parse, requested, fate, b), Source(fate, b);
    |Flatten(events)|
    + (if Ending(parse, requested, fate, b).Unreadable? && |events| < |source| then |source[|events|]| else 0)
  }

  /** The `received`-th chunk is the first with which `n` bytes have come in. */
  predicate StopsIn(chunks: seq<Bytes>, received: nat, n: nat)
    requires received <= |chunks|
  {
    received > 0 && |Flatten(chunks[..received - 1])| < n <= |Flatten(chunks[..received])|
  }

  /** The payloads the record has learnt from: those of the processed events, and those that precede a
      line that raised. */
  function Taught(parse: Parser, requested: bool, fate: Fate, b: Bytes): (r: seq<Payload>) {
    var events, source := ReadablePrefix(parse, Source(fate, b)), Source(fate, b);
    if ClosesWithin(parse, requested, fate, events) || |events| >= |source|
    then Payloads(parse, Flatten(Processed(parse, requested, fate, b)))
    else Payloads(parse, Flatten(events)) + Opening(parse, source[|events|])
  }

  /** How a stream ends: closed when the consumer closes at an event that is delivered; else by the first
      line that raises, of the complete events if the upstream fails and of the whole stream if not; else as
      the upstream ended it. */
  lemma EndingExactly(parse: Parser, requested: bool, fate: Fate, b: Bytes)
    requires fate.Fails? ==> fate.how.Cancelled? || fate.how.TimedOut? || fate.how.Broken? || fate.how.Raised?
    ensures var how := Ending(parse, requested, fate, b);
            && (how.Closed? <==> fate.ConsumerCloses? && 1 <= fate.after <= |Delivery(parse, requested, b)|)
            && (how.Unreadable? <==> !how.Closed? && !Readable(parse, if fate.Fails? then Flatten(Frames(b)) else b))
            && (!how.Closed? && !how.Unreadable? ==> how == match fate case Fails(e) => e case _ => Exhausted)
  {
    var source := Source(fate, b);
    ReadablePrefixStops(parse, source);
    if fate.Fails? {
      FramesFrame(b);
      ReadableEvents(parse, Frames(b), []);
      EmptyLineIsReadable(parse);
      assert Flatten(Frames(b)) + [] == Flatten(Frames(b));
    } else {
      EventsOfStream(parse, b);
    }
    hide Frames, Residue, Readable, ReadablePrefix, Kept, Events, Flatten;
  }

  /** The text came with the request, or is the model, the finish reason or a usage member of the stream. */
  predicate Holds(c: Call, f: Facts, t: Text) {
    || t in c.texts.attribution || t in c.texts.request
    || f.upstreamModel == Some(t) || f.finishReason == Some(t) || Detail(t) in f.usage
  }

  /** The record of a stream can be written exactly when none of these texts holds a surrogate. */
  lemma StreamRecordWritten(c: Call, f: Facts, how: StreamEnd)
    ensures CanBeWritten(AfterStreamEnd(WithReply(c, FactTexts(f)), how)) <==>
            (forall t | Holds(c, f, t) :: forall c | c in t :: !Lone(c))
  {
    forall t: Text ensures Encodable(t) <==> forall c | c in t :: !Lone(c) {
      EncodableExactly(t);
    }
    hide Encodable, Lone;
    var texts := c.texts.attribution + c.texts.request + FactTexts(f);
    forall t ensures t in texts <==> Holds(c, f, t) {
      FactMembers(f, t);
    }
    hide FactTexts;
    assert AfterStreamEnd(WithReply(c, FactTexts(f)), how).texts == c.texts.(reply := FactTexts(f));
  }

  lemma FactMembers(f: Facts, t: Text)
    ensures t in FactTexts(f) <==> f.upstreamModel == Some(t) || f.finishReason == Some(t) || Detail(t) in f.usage
  {
    if Detail(t) in f.usage {
      assert Detail(t).Detail? && Detail(t).name == t;
    }
  }

  /** The consumer that closes at its n-th event has received exactly n, the first n of all. */
  lemma ClosedDelivery(parse: Parser, requested: bool, n: nat, b: Bytes)
    requires Ending(parse, requested, ConsumerCloses(n), b) == Closed
    ensures var sent := Kept(parse, requested, Processed(parse, requested, ConsumerCloses(n), b));
            |sent| == n && sent <= Delivery(parse, requested, b)
  {
    var events := ReadablePrefix(parse, Events(b));
    ReadablePrefixStops(parse, Events(b));
    if ClosesWithin(parse, requested, ConsumerCloses(n), events) {
      ConsumedKeeps(parse, requested, events, n);
      KeptPrefix(parse, requested, Consumed(parse, requested, events, n), events);
    }
  }

  lemma {:induction false} ConsumedKeeps(parse: Parser, requested: bool, events: seq<Bytes>, n: nat)
    requires n <= |Kept(parse, requested, events)|
    ensures Consumed(parse, requested, events, n) <= events
    ensures |Kept(parse, requested, Consumed(parse, requested, events, n))| == n
  {
    if events != [] && n > 0 {
      var rest := if Keeps(parse, requested, events[0]) then n - 1 else n;
      assert events == [events[0]] + events[1..];
      ConsumedKeeps(parse, requested, events[1..], rest);
      KeptFirst(parse, requested, events[0], Consumed(parse, requested, events[1..], rest));
    }
  }

  /** A broken stream leaves the client with a prefix of what the whole stream would have delivered. */
  lemma FailedDelivery(parse: Parser, requested: bool, e: StreamEnd, a: Bytes, b: Bytes)
    ensures Kept(parse, requested, Processed(parse, requested, Fails(e), a)) <= Delivery(parse, requested, a + b)
  {
    BrokenIsPrefix(parse, requested, a, b);
  }

  /** A data line of one byte that is not UTF-8: nothing is delivered, and the stream ends unreadable. */
  lemma UndecodableLineEndsStream(parse: Parser, requested: bool)
    requires parse([0xFF]).Raises?
    ensures var b := DATA_PREFIX + [0xFF, LF, LF];
            && Ending(parse, requested, Completes, b) == Unreadable
            && Processed(parse, requested, Completes, b) == []
  {
    var b, line := DATA_PREFIX + [0xFF, LF, LF], DATA_PREFIX + [0xFF];
    assert b == line + [LF, LF];
    LinesOfOneEvent(line);
    LineWithoutLf(line);
    BadLine(line);
    assert LineRaises(parse, Lines(b)[0]);
    assert BlankAt(b, 6);
    OneEvent(b);
    assert ReadablePrefix(parse, [b]) == [];
    hide Consumed;
  }

  lemma BadLine(line: Bytes)
    requires line == DATA_PREFIX + [0xFF]
    ensures LineData(line) == Some([0xFF])
  {
    assert line[5..] == [0xFF] && DATA_PREFIX <= line;
    assert TrimLeft([0xFF]) == [0xFF] && TrimRight([0xFF]) == [0xFF];
    assert |DONE| == 6;
  }

  // ---- what the loops know -----------------------------------------------

  /** `events` have been taken off, `buf` is left. */
  ghost predicate Cut(events: seq<Bytes>, buf: Bytes, received: Bytes) {
    Flatten(events) + buf == received && forall k | 0 <= k < |events| :: IsEvent(events[k])
  }

  /** Everything so far could be read, was sent unless hidden, and the consumer has not closed. */
  predicate Underway(parse: Parser, requested: bool, fate: Fate, events: seq<Bytes>, sent: seq<Bytes>) {
    && AllReadable(parse, events) && sent == Kept(parse, requested, events)
    && (fate.ConsumerCloses? ==> fate.after == 0 || |sent| < fate.after)
  }

  lemma CutIsFraming(events: seq<Bytes>, buf: Bytes, received: Bytes)
    requires Cut(events, buf, received) && NoBlankLine(buf)
    ensures IsFraming(events, buf, received)
  {
  }

  lemma NextChunk(chunks: seq<Bytes>, i: nat, events: seq<Bytes>, buf: Bytes, chunk: Bytes)
    requires i < |chunks| && chunk == chunks[i] && |chunk| <= |buf|
    requires IsFraming(events, buf[..|buf| - |chunk|], Flatten(chunks[..i])) && buf[|buf| - |chunk|..] == chunk
    ensures Cut(events, buf, Flatten(chunks[..i + 1])) && Flatten(chunks[..i + 1]) <= Flatten(chunks)
    ensures |Flatten(chunks[..i + 1])| == |Flatten(chunks[..i])| + |chunk|
    ensures |Flatten(chunks[..i])| == |Flatten(events)| + |buf| - |chunk|
    ensures NoBlankLine(buf[..|buf| - |chunk|])
  {
    var kept := buf[..|buf| - |chunk|];
    TakeOne(chunks, i);
    TakeSome(chunks, i + 1);
    assert buf == kept + chunk;
    Assoc(Flatten(events), kept, chunk);
  }

  lemma NotSeenBefore(pending: Bytes, seen: nat, e: Bytes)
    requires seen <= |pending| && NoBlankLine(pending[..seen]) && IsEvent(e) && e <= pending
    ensures |e| > seen
  {
    assert BlankAt(e, |e| - 2);
    if |e| <= seen {
      assert BlankAt(pending[..seen], |e| - 2);
    }
  }

  lemma PrefixOfSource(fate: Fate, events: seq<Bytes>, rest: Bytes, received: Bytes, all: Bytes)
    requires Cut(events, rest, received) && received <= all
    ensures events <= Source(fate, all)
  {
    var later := all[|received|..];
    assert all == received + later;
    Assoc(Flatten(events), rest, later);
    EventsArePrefix(events, rest + later, all);
  }

  lemma WholeSource(fate: Fate, events: seq<Bytes>, buf: Bytes, all: Bytes)
    requires IsFraming(events, buf, all)
    ensures Source(fate, all) == if fate.Fails? || buf == [] then events else events + [buf]
  {
    FramesFrame(all);
    FramingUnique(events, buf, Frames(all), Residue(all), all);
  }

  lemma OneMoreEvent(parse: Parser, requested: bool, fate: Fate, events: seq<Bytes>, e: Bytes, sent: seq<Bytes>, keep: bool)
    requires Underway(parse, requested, fate, events, sent) && Readable(parse, e) && keep == Keeps(parse, requested, e)
    ensures AllReadable(parse, events + [e])
    ensures Kept(parse, requested, events + [e]) == if keep then sent + [e] else sent
  {
    hide Readable, Keeps;
    KeptAppend(parse, requested, events, [e]);
    KeptOne(parse, requested, e);
  }

  lemma RaisedHere(parse: Parser, requested: bool, fate: Fate, all: Bytes, events: seq<Bytes>, e: Bytes, sent: seq<Bytes>)
    requires Underway(parse, requested, fate, events, sent) && !Readable(parse, e)
    requires events + [e] <= Source(fate, all)
    ensures Ending(parse, requested, fate, all) == Unreadable && Processed(parse, requested, fate, all) == events
    ensures TakenBytes(parse, requested, fate, all) == |Flatten(events)| + |e|
    ensures Taught(parse, requested, fate, all) == Payloads(parse, Flatten(events)) + Opening(parse, e)
  {
    var source := Source(fate, all);
    var more := source[|events|..];
    assert source == events + more && more[0] == e;
    hide Source, Kept, Readable, Payloads, Opening, Flatten, Consumed;
    ReadablePrefixAppend(parse, events, more);
    assert events + [] == events;
  }

  lemma ClosedHere(parse: Parser, requested: bool, fate: Fate, all: Bytes, events: seq<Bytes>)
    requires AllReadable(parse, events) && events != [] && Keeps(parse, requested, events[|events| - 1])
    requires fate.ConsumerCloses? && fate.after == |Kept(parse, requested, events)|
    requires events <= Source(fate, all)
    ensures Ending(parse, requested, fate, all) == Closed && Processed(parse, requested, fate, all) == events
    ensures TakenBytes(parse, requested, fate, all) == |Flatten(events)|
    ensures Taught(parse, requested, fate, all) == Payloads(parse, Flatten(events))
  {
    ClosedPrefix(parse, requested, fate, all, events);
    hide Source, Kept, Payloads, Opening, Flatten, Consumed, ReadablePrefix;
  }

  lemma ClosedPrefix(parse: Parser, requested: bool, fate: Fate, all: Bytes, events: seq<Bytes>)
    requires AllReadable(parse, events) && events != [] && Keeps(parse, requested, events[|events| - 1])
    requires fate.ConsumerCloses? && fate.after == |Kept(parse, requested, events)|
    requires events <= Source(fate, all)
    ensures var readable := ReadablePrefix(parse, Source(fate, all));
            && ClosesWithin(parse, requested, fate, readable)
            && Consumed(parse, requested, readable, fate.after) == events
  {
    hide Source, Kept, Keeps, AllReadable, Consumed, ReadablePrefix;
    var source := Source(fate, all);
    var more := source[|events|..];
    assert source == events + more;
    ReadablePrefixAppend(parse, events, more);
    LastIsKept(parse, requested, events);
    KeptPrefix(parse, requested, events, events + ReadablePrefix(parse, more));
    ConsumedExactly(parse, requested, events, ReadablePrefix(parse, more));
  }

  lemma EndsHere(parse: Parser, requested: bool, fate: Fate, all: Bytes, events: seq<Bytes>, sent: seq<Bytes>)
    requires Underway(parse, requested, fate, events, sent) && events == Source(fate, all)
    ensures Ending(parse, requested, fate, all) == IfUndisturbed(fate)
    ensures Processed(parse, requested, fate, all) == events
    ensures Taught(parse, requested, fate, all) == Payloads(parse, Flatten(events))
  {
    ReadablePrefixAppend(parse, events, []);
    assert events + [] == events;
    hide Source, Kept, Readable, Payloads, Opening, Flatten, Consumed;
  }

  /** The rest of the stream, taken as one more event, keeps all that the loop knows. */
  lemma AppendLast(parse: Parser, requested: bool, events: seq<Bytes>, rest: Bytes, all: Bytes, start: Facts)
    requires IsFraming(events, rest, all)
    ensures Summary(Summary(start, Payloads(parse, Flatten(events))), Payloads(parse, rest))
            == Summary(start, Payloads(parse, Flatten(events + [rest])))
  {
    hide Payloads, Summary, IsEvent;
    FlattenAppend(events, [rest]);
    FlattenOne(rest);
    EventsEndInLf(events);
    PayloadsAppend(parse, Flatten(events), rest);
    SummaryAppend(start, Payloads(parse, Flatten(events)), Payloads(parse, rest));
  }

  lemma NothingYet(parse: Parser, requested: bool, chunks: seq<Bytes>, f: Facts)
    ensures IsFraming([], [], Flatten(chunks[..0])) && Flatten(chunks[..0]) == []
    ensures Kept(parse, requested, []) == [] && AllReadable(parse, [])
    ensures Summary(f, Payloads(parse, Flatten([]))) == f
  {
    EmptyLineCarriesNothing(parse);
    assert Payloads(parse, []) == [];
  }

  lemma KeptOne(parse: Parser, requested: bool, e: Bytes)
    ensures Kept(parse, requested, [e]) == if Keeps(parse, requested, e) then [e] else []
  {
    assert [e][1..] == [];
  }

  lemma TakeOne(chunks: seq<Bytes>, i: nat)
    requires i < |chunks|
    ensures Flatten(chunks[..i + 1]) == Flatten(chunks[..i]) + chunks[i]
  {
    assert chunks[..i + 1] == chunks[..i] + [chunks[i]];
    FlattenAppend(chunks[..i], [chunks[i]]);
    FlattenOne(chunks[i]);
  }

  lemma TakeSome(chunks: seq<Bytes>, i: nat)
    requires i <= |chunks|
    ensures Flatten(chunks) == Flatten(chunks[..i]) + Flatten(chunks[i..])
  {
    assert chunks == chunks[..i] + chunks[i..];
    FlattenAppend(chunks[..i], chunks[i..]);
  }

  /** Taking one more event off the buffer keeps all that the loop knows. */
  lemma {:induction false} AppendEvent(parse: Parser, requested: bool, events: seq<Bytes>, e: Bytes, rest: Bytes, received: Bytes, start: Facts)
    requires forall k | 0 <= k < |events| :: IsEvent(events[k])
    requires IsEvent(e) && Flatten(events) + (e + rest) == received
    ensures Flatten(events + [e]) + rest == received
    ensures |Flatten(events + [e])| == |Flatten(events)| + |e|
    ensures Kept(parse, requested, events + [e])
            == Kept(parse, requested, events) + (if Keeps(parse, requested, e) then [e] else [])
    ensures Summary(Summary(start, Payloads(parse, Flatten(events))), Payloads(parse, e))
            == Summary(start, Payloads(parse, Flatten(events + [e])))
  {
    hide Payloads, Summary, Kept, Keeps, IsEvent, Flatten;
    FlattenAppend(events, [e]);
    FlattenOne(e);
    Assoc(Flatten(events), e, rest);
    KeptAppend(parse, requested, events, [e]);
    KeptOne(parse, requested, e);
    EventsEndInLf(events);
    PayloadsAppend(parse, Flatten(events), e);
    SummaryAppend(start, Payloads(parse, Flatten(events)), Payloads(parse, e));
  }

  lemma {:induction false} EventsArePrefix(events: seq<Bytes>, rest: Bytes, b: Bytes)
    requires Flatten(events) + rest == b && forall k | 0 <= k < |events| :: IsEvent(events[k])
    ensures Frames(b) == events + Frames(rest)
  {
    FramesFrame(rest);
    FramesFrame(b);
    FlattenAppend(events, Frames(rest));
    Assoc(Flatten(events), Flatten(Frames(rest)), Residue(rest));
    assert IsFraming(events + Frames(rest), Residue(rest), b);
    FramingUnique(events + Frames(rest), Residue(rest), Frames(b), Residue(b), b);
  }
}
