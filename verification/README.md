# A verified model of AgentMem

AgentMem measures memory systems for language-model agents. Its numbers are only as good as five pieces of
machinery, and this project models those and proves what they promise: the streaming proxy that records every model
call, the attribution of calls to benchmark cells, the runner that can crash and be resumed, the load scheduler and the
canary that times ingestion, and the statistics at the end. Everything is proved for all inputs, all runs or all
reachable states; `dafny verify dfyconfig.toml` checks the whole project.

| file | what it models |
|---|---|
| `SseFraming`, `StreamEvents`, `CallRecords` | the stream re-framer, what one event teaches, the mutable call record and its loops |
| `ModelCalls`, `Admissions` | one request as a step machine over its awaits, and all interleavings over one log; how its headers and path decide the first step |
| `Text`, `JsonBytes`, `TagJson`, `Base64Url`, `Tags`, `TagToken` | the tag token: code points, the encodings of a JSON document, JSON (RFC 8259 sections 2 to 7), base64url (RFC 4648 section 5), validation, API key and path |
| `ScopeRegistry`, `AttributionLaw` | overlapping scopes and their merge; header over scope over token |
| `EventLog` | the append-only JSONL file, its writer and its sequence numbers |
| `BenchRun`, `Selection` | sessions, crashes, resumes, tally against recomputation; selection and distinct ids |
| `OpenLoop` | the open-loop scheduler over a FIFO semaphore |
| `Settlement` | canary records, the polling wait, and what its bounds mean |
| `Wilson`, `McNemar`, `Quantiles`, `Ranking` | exact statistics over the reals |
| `Common`, `Reals` | shared vocabulary |

Where the source updates an object, the model is a class (`CallRecord`, `Registry`, `LogFile`, `Writer`, `Runner`,
`CanaryRecord`, `MemoryAdapter`) or a method with a loop, and its contract ties the new state to a function of the old
one; the laws are then proved of those functions. What an `await` answers, how long it takes, what a generator draws,
how a parser reads a payload, how a decimal is rounded and how a nested value is shown as text are parameters that may
have any value.

## What the code does that it is not documented to do

Each is stated in the model with the exact condition; the second name, where there is one, is a lemma at a failing input.

- **Tag tokens.** `decode(encode(t))` is `normalize(t)` only if no string holds a high surrogate directly before a low
  one: the JSON printer escapes the two, and the reader joins them into one character (`TagToken.RoundTripExactly`,
  `TagToken.RoundTripCounterexample`). The registry compares JSON texts, so the same strings count as agreeing there and
  the merged value then depends on the order of the scopes (`ScopeRegistry.OrderIrrelevantExactly`,
  `ScopeRegistry.OrderCanMatter`).
- **Attribution.** If the scopes of a client disagree on `client_id`, no header has one and the static token does, the
  token's id is put back under the label `derived_from_system` (`AttributionLaw.DerivedLabelExactly`,
  `AttributionLaw.DerivedLabelWrong`).
- **One MODEL_CALL.** A finished request has exactly one record if and only if two things hold
  (`ModelCalls.OneModelCall`). First, the segment it ended on raised nothing that no handler names: not an overflow while
  its attribution was resolved (`ModelCalls.RaisingAttributionLeavesNoRecord`), a failing body read, a cancelled upstream
  call, a failing close, a stream that was never started or a response that was never delivered, and not a reply or error
  body whose bytes make the JSON decoder raise something other than a syntax error
  (`ModelCalls.UndecodableReplyLeavesNoRecord`). Second, every string of the record can be encoded: the request is marked
  as logged before the record is written, so a lone surrogate in a tag, in the model name or in the reply loses it
  (`ModelCalls.SurrogateModelLeavesNoRecord`, `ModelCalls.SurrogateTagLeavesNoRecord`).
- **Overflowing tokens.** Validation catches type and value errors of `int(value)` but not its OverflowError, and runs
  outside the guard of `decode_tags`. So a token whose first entry to be refused is an infinite seed, written `Infinity`
  or as a decimal that rounds to it, is not answered with 400: the exception leaves the handler
  (`TagToken.DecodeOverflowsExactly`, `TagToken.InfinityOverflows`, `TagToken.HugeOverflows`). It does so exactly for
  the static token of a request, or for the compact token of its headers when the static one is fine
  (`AttributionLaw.OverflowExactly`, `Admissions.Attribute`, `Admissions.InfiniteSeedEscapes`).
- **Errors without a type.** A generator closed at a yield, a data line that raises, and any other exception of the chunk
  iterator that no handler names, log an error without an error type (`ModelCalls.LoggedOutcomes`,
  `ModelCalls.UndecodableLineLogsUntyped`). A raising line also ends the delivery: the client gets the events before it
  (`StreamEvents.ProcessedPart`, `CallRecords.UndecodableLineEndsStream`).
- **Framing.** A stream framed with CR LF CR LF is one event, delivered whole at its end or not at all
  (`StreamEvents.UnframedIsAllOrNothing`).
- **Log numbers.** `append` takes its number before it encodes, so a failed encoding leaves a gap
  (`EventLog.NumbersExactly`, `EventLog.FailedAppendLeavesGap`).
- **Resume.** Repeated ids in a selection complete twice (`BenchRun.DistinctnessExactly`); a crash between JUDGE_END and
  INSTANCE_END makes the judged count one too high after the resume
  (`BenchRun.CrashDoubleCount`, `BenchRun.CutAfterVerdict`).
- **Settlement.** The lower visibility bound is the time after the failed search returned. It is sound for every possible
  moment if and only if that search looked at the store at its very end (`Settlement.LowerBoundExactly`,
  `Settlement.SlowSearchMisleads`). A canary that a wait gave up on stays pending after its marker was deleted, so a next
  wait of no greater length polls it once and gives up too, unless the search raises
  (`Settlement.MemoryAdapter.WaitAgain`).
- **Scheduler.** A limit of 0 is accepted and serves nobody (`OpenLoop.LimitZeroServesNobody`).
- **Wilson.** A negative z is accepted and gives an interval that holds nothing (`Wilson.InversionExactly`).
- **Ranking.** The winner under limits is on the Pareto front if and only if no row beyond the token limit dominates all
  the most accurate admitted rows (`Ranking.WinnerOnFrontExactly`, `Ranking.TokenWinnerMayBeOffFront`).

## Model

| member | source | states |
|---|---|---|
| SseFraming.Find | proxy/app.py:662-664 | the buffer search finds the first LF LF, or there is none |
| SseFraming.FramesFrame | proxy/app.py:654-670 | splitting a byte string once gives events that each end in their first blank line, a rest without one, and loses no byte |
| SseFraming.FramingUnique | proxy/app.py:654-670 | there is only one such framing of given bytes, so how they arrived in chunks cannot matter |
| SseFraming.LinesRejoin | proxy/app.py:622-622 | splitting an event into lines loses nothing |
| SseFraming.LinesAfterLf | proxy/app.py:622-622 | splitting into lines commutes with cutting after a line feed |
| StreamEvents.LineDataExactly | proxy/app.py:622-628 | a line has data exactly when it is `data:`, the data and blanks around it, and the data is not `[DONE]` |
| StreamEvents.PayloadsAppend | proxy/app.py:622-634 | cutting the stream after a line feed neither loses, invents nor reorders JSON payloads |
| StreamEvents.ReadableAppend | proxy/app.py:622-651 | cutting after a line feed, no line of either part raises exactly when no line of the whole does |
| StreamEvents.NormalisedSettles | proxy/app.py:551-563 | usage normalisation keeps every count that is not null, takes the two chat names from the other two where they are missing, adds a total of prompt plus completion, nothing else, and is idempotent |
| StreamEvents.SummaryAppend | proxy/app.py:635-651 | learning from two stretches one after the other is learning from both at once: first model, all text, last finish reason, last usage |
| StreamEvents.LearntExactly | proxy/app.py:635-651 | what is learnt, in terms of the payloads: the first model, the content of every choice that has some, in order, the last finish reason that is not empty, the last usage report, a payload's own before that of its response |
| StreamEvents.ProcessedPart | proxy/app.py:622-651 | the events that are processed are a prefix of the stream, and all of it exactly when no data line raises |
| StreamEvents.RequestedMeansTransparent | proxy/app.py:568-570 | a client that asked for usage receives a prefix of the upstream bytes, and exactly those bytes if and only if no data line raises |
| StreamEvents.DeliveryConserves | proxy/app.py:645-670 | what is delivered is the order-preserving selection of those events that have no usage report without choices, or of all if the client asked for usage, from a list that concatenates to the upstream bytes, or to those before the first event that raises |
| StreamEvents.UsageChunk | proxy/app.py:645-648 | one event with one data line is hidden from a client that did not ask for usage exactly when its payload reports usage and has no choices |
| StreamEvents.FramesPrefix | proxy/app.py:657-667 | the events of a prefix of the stream are the first events of the stream |
| StreamEvents.BrokenIsPrefix | proxy/app.py:657-684 | what a client got before a failure is a prefix of what the whole stream would have delivered |
| StreamEvents.UnframedIsAllOrNothing | proxy/app.py:661-670 | a stream without LF LF is one event, delivered at the end, or lost if it is hidden or a line of it raises |
| StreamEvents.ConsumedExactly | proxy/app.py:666-670 | what has been processed when the client receives its n-th event is fixed by the events alone |
| ModelCalls.StepKeepsTaskOk | proxy/app.py:401-537 | every segment of a request keeps: not logged before it is finished, success only with a 2xx status and no error type, error types where handlers set them |
| ModelCalls.NeverStuck | proxy/app.py:401-696 | until a request is finished some answer lets it go on, and afterwards none does |
| ModelCalls.OneModelCall | proxy/app.py:359-371 | in every reachable state of every interleaving a request has at most one MODEL_CALL, none before it is finished, and exactly one after if and only if it did not end on an unhandled exception and no string of its record holds a surrogate |
| ModelCalls.LoggedOutcomes | proxy/app.py:401-691 | every record in the log of any interleaving is the one of its request's story, made of an arrival and answers that happened in that order; it is a success exactly for a delivered 2xx reply or an exhausted stream, and an error without a type exactly when the stream was thrown out of by a closing consumer, a data line that raises, or another exception of the chunk iterator |
| ModelCalls.LoggedStory | proxy/app.py:401-696 | the only sequences of answers that lead to a record, and for each of them status, HTTP status, upstream status, error type and the strings of the record: 400, 404, 504, 502, 499 and pass-through each in its place |
| ModelCalls.Answers | proxy/app.py:401-466 | in any interleaving a request is where its own arrival and answers, in their order, have taken it |
| ModelCalls.CleanRequestsAreWritable | proxy/logging.py:62-63 | if nothing a request was given holds a surrogate, its record can be written |
| ModelCalls.SurrogateModelLeavesNoRecord | proxy/app.py:361-371 | a chat body whose model is a lone surrogate is answered with 200 and leaves no record |
| ModelCalls.SurrogateTagLeavesNoRecord | proxy/app.py:415-418 | neither does a request rejected with 400 that has a lone surrogate in a tag |
| ModelCalls.UndecodableReplyLeavesNoRecord | proxy/app.py:493-496 | an error page that is not UTF-8 leaves no record, for plain and for streaming requests |
| ModelCalls.UndecodableLineLogsUntyped | proxy/app.py:629-691 | a data line that cannot be decoded logs status error with HTTP status 200 and no error type |
| ModelCalls.RaisingAttributionLeavesNoRecord | proxy/app.py:406-411 | an attribution that raises something other than a TagError leaves no record, for every endpoint and setting |
| ModelCalls.LogOnlyExtends | proxy/app.py:359-371 | what has been logged is never changed by later steps of any request |
| ModelCalls.RequestsAreIndependent | proxy/app.py:401-466 | what becomes of a request depends only on its own arrival and answers |
| CallRecords.CallRecord.Fail | proxy/app.py:290-294 | a failure sets status error, the HTTP status and the error type, and nothing else |
| CallRecords.CallRecord.Log | proxy/app.py:359-371 | flushing marks the record as logged and appends it, only the first time; it raises, and appends nothing, exactly when a string of the record cannot be encoded |
| CallRecords.CallRecord.Resume | proxy/app.py:401-696 | one segment of the handlers changes record and log exactly as the step machine says, and is refused exactly when the request is not waiting for that answer |
| CallRecords.CallRecord.Admission | proxy/app.py:407-423 | of the requests whose attribution raised nothing but a TagError, malformed, missing and unsupported requests are rejected in that order with 400, 400 and 404; models requests need no attribution |
| Admissions.Attribute | proxy/app.py:405-423 | the first segment, from headers, path and registry: the exception escapes if and only if a token of the request overflows, and otherwise a request that ends here leaves exactly one record, unless a tag or scope id holds a surrogate; a malformed static token is answered with 400; a resolved request is unattributed exactly when its tags name no system, operation, session and run |
| Admissions.OverflowEscapes | proxy/tags.py:262-281 | a token that overflows does so in the path, in the API key when there is no path token, and in the compact header when the static token is fine |
| Admissions.InfiniteSeedEscapes | proxy/tags.py:88-93 | the token of {"seed":Infinity} is one, whatever the headers are |
| CallRecords.CallRecord.AbsorbUsage | proxy/app.py:551-563 | an empty usage object changes nothing, any other leaves its normal form |
| CallRecords.CallRecord.AbsorbChoices | proxy/app.py:637-644 | the loop over choices appends their text deltas in order and keeps the last non-empty finish reason |
| CallRecords.CallRecord.AbsorbPayload | proxy/app.py:635-651 | one payload updates model, text, finish reason and usage as the summary says |
| CallRecords.CallRecord.ProcessEvent | proxy/app.py:619-652 | the line loop stops exactly at a line that raises, having learnt from the lines before it and from what that line taught first; otherwise it learns what the payloads say, and keeps the event exactly when the client asked for usage or no payload reports usage without choices |
| CallRecords.CallRecord.Drain | proxy/app.py:661-667 | the inner loop consumes every complete event of the buffer, yielding the kept ones, and stops at an event that raises or at the yield where the consumer closes it |
| CallRecords.CallRecord.LastEvent | proxy/app.py:668-670 | what is left in the buffer when the upstream is exhausted is processed as one event |
| CallRecords.CallRecord.StreamBody | proxy/app.py:654-691 | events sent, facts learnt and the way the stream ends are functions of the upstream bytes alone, however they are cut into chunks, also when the upstream fails, a line raises or the consumer closes; the bytes of the chunks taken are counted, and a stream that stops early has taken the fewest chunks that hold the last event taken up; one record, unless the close fails or the record cannot be encoded |
| CallRecords.CallRecord.ReadStream | proxy/app.py:657-670 | the chunk loop up to the point where it stops, against the same functions |
| CallRecords.EndingExactly | proxy/app.py:657-685 | a stream ends closed exactly when the consumer closes at an event it receives; else unreadable exactly when a line raises, of the complete events if the upstream fails and of the whole stream if not; else as the upstream ended it |
| CallRecords.StreamRecordWritten | proxy/logging.py:62-63 | the record of a stream can be written exactly when no text of the request, and neither model, finish reason nor a usage member of the stream, holds a surrogate |
| CallRecords.ClosedDelivery | proxy/app.py:666-670 | a consumer that closes at its n-th event has received the first n events of the delivery |
| CallRecords.FailedDelivery | proxy/app.py:673-684 | a failed stream leaves the client with a prefix of what the whole would have delivered |
| CallRecords.UndecodableLineEndsStream | proxy/app.py:629-632 | a data line of one undecodable byte ends the stream with nothing delivered |
| Text.CanonFixesExactly | proxy/tags.py:112-120 | joining surrogate pairs changes a string exactly when it holds a split pair |
| Text.CanonIsCanonical | proxy/tags.py:119-120 | a string that has been read holds no split pair any more |
| JsonBytes.AnyEncoding | proxy/tags.py:119-120 | a document that starts with an ASCII character is read as it stands from UTF-8, UTF-16 and UTF-32 in either byte order |
| JsonBytes.Utf8Exactly | proxy/tags.py:119-120 | bytes read as a text exactly when they are its UTF-8 bytes, lone surrogates included |
| JsonBytes.Utf16RoundTrip | proxy/tags.py:119-120 | UTF-16 of either byte order is read back, for every text without split pair |
| JsonBytes.Utf32RoundTrip | proxy/tags.py:119-120 | UTF-32 of either byte order is read back, for every text |
| JsonBytes.MarkedDocument | proxy/tags.py:119-120 | a byte order mark decides the encoding and is not part of the text |
| TagJson.EscapeExactly | proxy/tags.py:112-112 | how the printer writes each character: five short escapes, quote and backslash, plain ASCII, and one or two Unicode escapes with lower-case digits |
| Text.DecimalExactly | proxy/tags.py:112-112 | the k-th character from the right of a printed integer is its k-th decimal digit |
| TagJson.ReadCharsOf | proxy/tags.py:112-120 | printing a string with ASCII escapes and reading it back joins its split pairs and changes nothing else |
| TagJson.ReadObjectOf | proxy/tags.py:112-120 | reading a printed flat object gives its members back, in order, split pairs joined |
| TagJson.ReadSpaced | proxy/tags.py:119-120 | white space around every part of an object changes nothing |
| TagJson.PrintObjectAscii | proxy/tags.py:112-112 | the printed object is ASCII, so its bytes are its characters |
| Base64Url.UnpaddedRestores | proxy/tags.py:113-117 | tokens use only the URL-safe alphabet, and adding -len mod 4 pads restores the padded form for every length |
| Base64Url.AlphabetExactly | proxy/tags.py:113-113 | the token of any bytes, character by character: its k-th character stands in the alphabet of RFC 4648 table 2 at the k-th base-64 digit of the 24-bit groups |
| Base64Url.OthersSkipped | proxy/tags.py:117-119 | reading takes + and / of the other alphabet too, and skips every other character but the pad |
| Base64Url.RoundTrip | proxy/tags.py:113-119 | decoding an unpadded token is the identity on all byte strings |
| Base64Url.PaddedToken | proxy/tags.py:117-119 | a token that still has its padding is read as well |
| Base64Url.OneTooManyFails | proxy/tags.py:117-119 | a token of alphabet characters one longer than whole groups of four is never decoded |
| Tags.NormalizeTags | proxy/tags.py:81-106 | the validating loop, entry by entry in order, returns the normal form of the entries, or the error of the first entry that is refused |
| Tags.NormalizedExactly | proxy/tags.py:81-106 | the order of the entries decides neither acceptance nor the normal form; the error is an overflow exactly when an infinite seed is the first entry to be refused |
| Tags.EntryExactly | proxy/tags.py:85-105 | what validation makes of one entry, for each kind of value and each field: dropped, kept as which value, or refused with which error |
| Tags.UnknownRefused | proxy/tags.py:85-86 | a name that is not one of the seven is refused |
| Tags.PlainNeverOverflows | proxy/tags.py:286-286 | entries without floating-point numbers, such as those of headers, are refused with a TagError only |
| Tags.NormalizeGivesNormal | proxy/tags.py:81-106 | an accepted map has strings of 1 to 256 characters, a known operation, an integer seed and an allowed system |
| Tags.NormalizeSettles | proxy/tags.py:81-106 | a normal map is returned unchanged, or rejected for its system only |
| Tags.NormalizeIdempotent | proxy/tags.py:81-106 | validating twice is validating once, with the allow-list or without |
| Tags.ParseIntOfIntText | proxy/tags.py:88-93 | a seed written as text and read back is the same seed |
| Tags.ParseIntExactly | proxy/tags.py:88-93 | the texts that denote an integer, and which: white space around an optional sign and digits with single underscores between them |
| TagToken.DecodeOverflowsExactly | proxy/tags.py:116-125 | for every token text: decoding raises an overflow exactly when the token carries an object whose first entry to be refused is an infinite seed |
| TagToken.SurrogateRefused | proxy/tags.py:117-121 | a token text with a surrogate is a TagError |
| TagToken.PutExactly | proxy/tags.py:119-125 | of several members with one name the last value counts, at the place of the first |
| TagToken.InfinityOverflows | proxy/tags.py:88-93 | the token of {"seed":Infinity} raises an overflow |
| TagToken.HugeOverflows | proxy/tags.py:88-93 | so does that of {"seed":1e999}, if that decimal rounds to infinity |
| TagToken.DecodeEncode | proxy/tags.py:109-125 | decoding the token of any accepted map gives its normal form, split surrogate pairs joined |
| TagToken.DocumentsLiterally | proxy/tags.py:112-112 | three documents, character by character: members in the order of their names, without blanks |
| TagToken.TokensLiterally | proxy/tags.py:109-125 | the tokens of no tags and of a seed are e30 and eyJzZWVkIjoxfQ, for encoding and for decoding |
| TagToken.RoundTripExactly | proxy/tags.py:109-125 | the round trip is exact if and only if no normalised string holds a split pair |
| TagToken.RoundTripSettles | proxy/tags.py:109-125 | tags that have been through a token once are unchanged by every further round trip |
| TagToken.SameTokenExactly | proxy/tags.py:109-113 | two accepted maps have the same token exactly when their normal forms are equal up to joined pairs |
| TagToken.RoundTripCounterexample | proxy/tags.py:109-125 | a two-surrogate configuration comes back as one character |
| TagToken.TokenSurvivesKey | proxy/tags.py:133-142 | a token is read back from both key prefixes, with and without Bearer in any case |
| TagToken.CarriersLiterally | proxy/tags.py:71-72 | the prefixes are sk-bench-, bench- and /b/ |
| TagToken.OtherKeys | proxy/tags.py:133-142 | keys with neither prefix, and absent or empty headers, carry no token |
| TagToken.KeyExactly | proxy/tags.py:133-142 | the key of a header is what follows the word bearer, in any case, else the whole header, without the white space around it |
| TagToken.SplitPathExactly | proxy/tags.py:145-152 | a path is split exactly when it is /b/, a non-empty token without slash, and a slash; otherwise it is returned unchanged |
| TagToken.TagsArrive | proxy/tags.py:109-152 | end to end, the tags put into a key or a path are the tags read from it |
| ScopeRegistry.Registry.Enter | proxy/tags.py:176-184 | entering appends to the client's table unless the id is active there, which is an error that changes nothing |
| ScopeRegistry.Registry.Exit | proxy/tags.py:186-193 | exiting removes that scope, drops an emptied table, and fails without change when the scope is unknown |
| ScopeRegistry.Registry.Resolve | proxy/tags.py:206-227 | resolving gives the merge of the client's active scopes, by shortcut for none and one |
| ScopeRegistry.Registry.MergeSeveral | proxy/tags.py:218-227 | the loop over sorted keys computes the merge |
| ScopeRegistry.ActiveIsHistory | proxy/tags.py:176-198 | after any run the active scopes of a client are its not yet exited enters in enter order, and no client keeps an empty table |
| ScopeRegistry.FailsExactly | proxy/tags.py:176-193 | after any run: entering fails for an empty id or one that is open, exiting for one that is not, each with its own error |
| ScopeRegistry.TableStaysNormal | proxy/tags.py:176-193 | entering only validated tags keeps every active scope of every client validated, in any run |
| ScopeRegistry.OtherClientsIrrelevant | proxy/tags.py:195-198 | leaving out all operations of other clients leaves the active scopes as they are |
| ScopeRegistry.TextsCount | proxy/tags.py:221-225 | no text, one text or more texts means undefined, agreeing or disagreeing |
| ScopeRegistry.MergeMeaning | proxy/tags.py:220-227 | a field is merged exactly when the scopes defining it agree, ambiguous exactly when two differ |
| ScopeRegistry.MergeShape | proxy/tags.py:212-227 | ids in the order of the scopes, the value of the first scope that has the field, ambiguous fields once each in the order of the fields, and the state |
| ScopeRegistry.SingleIsGeneral | proxy/tags.py:216-217 | the single-scope shortcut gives what the general merge gives |
| ScopeRegistry.PrintDecidesExactly | proxy/tags.py:221-221 | comparing JSON texts decides equality up to joined surrogate pairs |
| ScopeRegistry.AmbiguityPersists | proxy/tags.py:220-226 | more scopes never turn an ambiguous field back into a value |
| ScopeRegistry.OrderIrrelevantUpToCanon | proxy/tags.py:206-227 | every order of the scopes gives the same state and ambiguous list, and the same tags up to joined pairs |
| ScopeRegistry.OrderIrrelevantExactly | proxy/tags.py:221-223 | the tags themselves are the same for every order exactly when no agreeing field hides a difference |
| ScopeRegistry.OrderCanMatter | proxy/tags.py:221-223 | two scopes with one character in two spellings agree, and the order decides which is merged |
| ScopeRegistry.NoSplitHidesNothing | proxy/tags.py:221-223 | without split pairs nothing is hidden, so the order never matters |
| AttributionLaw.ResolveAttribution | proxy/tags.py:251-312 | the whole resolution: a static token that fails, then headers that fail, give their own error, be it a TagError or an overflow; otherwise the lawful attribution, or a TagError exactly for a system that is not allowed |
| AttributionLaw.Layered | proxy/tags.py:273-304 | token, scope, dropping of ambiguous fields and headers, laid over each other, give the chosen value and source of every field |
| AttributionLaw.Overlay | proxy/tags.py:294-296 | the layering loop writes every value of a layer with its label |
| AttributionLaw.Drop | proxy/tags.py:297-300 | the loop over ambiguous fields removes each and labels it ambiguous |
| AttributionLaw.Combine | proxy/tags.py:273-308 | layering followed by restoring the client id obeys the law |
| AttributionLaw.Validated | proxy/tags.py:310-312 | the final validation rejects a system that is not allowed and changes nothing otherwise |
| AttributionLaw.OverflowExactly | proxy/tags.py:262-286 | static tags, or header tags, overflow exactly when the static token, or the compact token, does |
| AttributionLaw.FinalValidation | proxy/tags.py:310-312 | after any registry run over validated tags the attribution is normal, and the final validation rejects it exactly for its system and otherwise changes nothing |
| AttributionLaw.LawDeterminesAttribution | proxy/tags.py:262-312 | the law leaves no choice: it fixes tags, sources and state |
| AttributionLaw.Precedence | proxy/tags.py:262-304 | over any registry history: a header value wins; a field on which two live scopes of the client differ is absent and labelled ambiguous even if the token has it; a field live scopes define has the value they agree on; only a field no live scope defines is the token's, labelled by where the token was, the path before the key |
| AttributionLaw.HeaderTagsExactly | proxy/tags.py:277-286 | headers are accepted exactly when the compact token is and each single header denotes a value of its field; a single header decides its field, otherwise the compact token does |
| AttributionLaw.HeadersWin | proxy/tags.py:277-304 | over any registry history, whatever token and scopes say: a single header that is not empty gives its field its text, or the integer it denotes, labelled header; then the compact token does; no other field has that label |
| AttributionLaw.WhoseScopes | proxy/tags.py:288-293 | a request has, in enter order, the live scopes of the client its headers name, else its token, else of the system of its headers, else of its token, else none |
| AttributionLaw.ClientIdAlwaysKnown | proxy/tags.py:289-308 | a client id is present whenever there was a lookup id |
| AttributionLaw.DerivedLabelExactly | proxy/tags.py:306-308 | when the label derived_from_system is given, and that it covers the token's own client id if and only if the token has one, the scopes disagree and no header has one |
| AttributionLaw.DerivedLabelWrong | proxy/tags.py:297-308 | a request without headers, whose path token names a client that has two scopes naming different clients: the wrong label, with no system anywhere |
| AttributionLaw.OtherClientsNeverMatter | proxy/tags.py:195-198 | scopes of other clients never change an attribution, in any run |
| EventLog.ReadBack | proxy/logging.py:97-103 | reading a log back gives the appended records in order |
| EventLog.LogFile.WriteAll | proxy/logging.py:64-67 | with arbitrary short writes the loop puts exactly all bytes at the end of the file |
| EventLog.Writer.constructor | proxy/logging.py:29-48 | opening finds the last number this instance wrote and changes no byte |
| EventLog.Writer.Append | proxy/logging.py:54-70 | an append adds exactly the JSON text with the next number and a line feed; closed and unencodable appends add nothing |
| EventLog.Writer.Close | proxy/logging.py:77-84 | closing is final, idempotent and leaves the file alone |
| EventLog.NumbersExactly | proxy/logging.py:40-64 | over all close and reopen cycles of one instance numbers increase, and are 1, 2, 3, ... exactly when no append after a failed one succeeds before the next reopening |
| EventLog.OtherWriterRestarts | proxy/logging.py:40-48 | another instance that reopens the log begins again at 1 |
| EventLog.FailedAppendLeavesGap | proxy/logging.py:59-63 | a first append that cannot be encoded and a second that can: the only record has number 2 |
| EventLog.FileOnlyExtends | proxy/logging.py:54-70 | the file at any earlier moment is a prefix of the file now |
| BenchRun.Runner.Emit | bench/runner.py:126-127 | an event is stamped with the current question, if any, and appended |
| BenchRun.Runner.RunInstance | bench/runner.py:211-273 | one question emits its trace up to the failing stage, counts itself once, clears its context unless its first event could not be written, and re-raises only then, when interrupted, or when aborting |
| BenchRun.Runner.Run | bench/runner.py:185-201 | the loop skips completed cells, stops on errors in abort mode, and always emits RUN_END with the tally |
| BenchRun.ErrorsStop | bench/runner.py:190-196 | the loop's own abort check never fires: the re-raised error has stopped the run before |
| BenchRun.TallyAgrees | analysis/metrics.py:27-44 | for every mix of failures, skips and error modes the RUN_END tally equals what accuracy recomputes, and judged + errored = instances |
| BenchRun.AccuracyExactly | analysis/metrics.py:27-44 | the recomputed counts are numbers of JUDGE_END rows, correct ones, INSTANCE_END rows, and those with and without error |
| BenchRun.CourseExactly | bench/runner.py:211-273 | what one question emits, event by event: the whole course of eight events with its verdict, or its beginning up to the failing stage and an error and an end, each stamped with the question and its type |
| BenchRun.PerQuestion | bench/runner.py:185-201 | what a session emits for a question: nothing if it was over before, one CELL_SKIPPED if the question is completed, else the course of its fate |
| BenchRun.StoppedExactly | bench/runner.py:185-201 | a session is over before an instance exactly when an earlier one that had to be run was interrupted, could not start, or failed in abort mode |
| BenchRun.GrammarExactly | bench/runner.py:211-273 | every INSTANCE_START is closed by one INSTANCE_END of its question before the next and before RUN_END, exactly when the session was not interrupted |
| BenchRun.DoneCounts | bench/resume.py:6-14 | a question is in the completed set exactly when it has an error-free INSTANCE_END |
| BenchRun.AdmittedExactly | bench/resume.py:6-14 | a fresh attempt is admitted exactly for an absent or empty log, a resume exactly when the log is absent or its first RUN_START has this run id and this configuration; which error otherwise; and which questions are skipped |
| BenchRun.ResumeFindsItsRun | bench/runner.py:105-111 | a run that has written anything can be resumed under its own run id and configuration and no other |
| BenchRun.AtMostOnce | bench/runner.py:107-111 | over any sequence of fresh and resumed attempts, each cut at any event, no question has two error-free ends, for distinct selections |
| BenchRun.DistinctnessExactly | bench/runner.py:185-189 | distinct ids are exactly what that needs: a repeated id completes twice |
| BenchRun.CompletedGrows | bench/resume.py:6-14 | log and completed set only grow |
| BenchRun.CleanAttemptCompletes | bench/runner.py:185-201 | after any attempts with distinct selections, cut anywhere, an admitted and uncut one without errors leaves exactly one error-free end for each selected question |
| BenchRun.CrashDoubleCount | analysis/metrics.py:27-33 | each attempt cut between JUDGE_END and INSTANCE_END makes the recomputed judged count exactly one too high |
| BenchRun.CutAfterVerdict | analysis/metrics.py:27-33 | a run cut right after its JUDGE_END counts one judged question and no completed one |
| BenchRun.PerType | analysis/metrics.py:35-38 | the group loop tabulates exactly the types that were judged |
| BenchRun.OfTypeExactly | analysis/metrics.py:35-38 | a group counts the verdicts on questions of its type and the correct ones among them |
| BenchRun.TypesPartition | analysis/metrics.py:35-44 | the groups add up to the overall counts |
| Selection.CheckedExactly | bench/longmemeval.py:108-122 | loading fails, for duplicate ids, exactly when a question id repeats |
| Selection.Shuffle | bench/longmemeval.py:137-138 | the in-place shuffle leaves a permutation, whatever the generator draws |
| Selection.SelectInstances | bench/longmemeval.py:125-140 | unknown ids are an error; otherwise the result is the permuted pool, cut to the limit |
| Selection.LimitedExactly | bench/longmemeval.py:139-140 | a positive limit keeps that many, a negative one all but that many, none and zero everything |
| Selection.PoolExactly | bench/longmemeval.py:125-136 | the pool is everything, or the wanted questions in the order asked for; an unknown id is an error |
| Selection.SelectionDistinctExactly | bench/longmemeval.py:125-140 | a selection without limit is distinct exactly when its pool is; with any limit if its pool is |
| Selection.WholeDatasetDistinct | bench/longmemeval.py:118-140 | a loaded data set run as a whole is selected completely and without repetition |
| Selection.WantedDistinctExactly | bench/longmemeval.py:129-134 | explicit ids give a distinct pool exactly when they are distinct |
| OpenLoop.Safety | load/driver.py:17-29 | every interleaving: in flight at most the limit, waiting only while all slots are taken, no slot leaked by failures, scheduled = origin + offset <= dispatch <= completion, and the three delays are the differences of those times in milliseconds |
| OpenLoop.EventsHappened | load/driver.py:20-29 | every reported event happened: the request was dispatched from a slot when the clock showed its dispatch time, and ended with the reported success when it showed the completion time |
| OpenLoop.ResultsComplete | load/driver.py:27-29 | at the end result i belongs to offset i, none lost or duplicated, and all slots are free |
| OpenLoop.NoDeadlock | load/driver.py:18-26 | with a positive limit some request can always step until all have ended |
| OpenLoop.LimitZeroServesNobody | load/driver.py:17-22 | with limit 0 no request is ever dispatched |
| OpenLoop.QueueingBound | load/driver.py:20-24 | with w requests ahead a request is dispatched within (w / limit + 1) service times, in every interleaving |
| OpenLoop.EverythingEnds | load/driver.py:20-29 | once all requests are awake everything has ended after (n / limit + 2) service times |
| OpenLoop.LoadEnds | load/driver.py:14-29 | a whole load, from its start: if sleepers wake on time, everything has ended (n / limit + 2) service times after the last scheduled time, in every interleaving |
| Settlement.CanaryRecord.Observe | adapters/base.py:312-331 | one poll adds itself to the history, and the fields are again what the history says |
| Settlement.TimesOrdered | adapters/base.py:110-154 | submitted <= acknowledged <= last failed poll <= first retrievable <= now wherever set; settled exactly when retrievable; 0 <= lower <= upper |
| Settlement.LagsExactly | adapters/base.py:131-154 | the reported bounds are the end of the last poll that did not see the marker, or the acknowledgement, and the end of the poll that did, in milliseconds after the acknowledgement |
| Settlement.AlwaysSound | adapters/base.py:131-154 | the upper bound holds for every moment consistent with the polls, and the start of the last failed poll would be a sound lower bound |
| Settlement.LowerBoundExactly | adapters/base.py:144-149 | the reported lower bound holds for all consistent moments exactly when the last failed search looked at the store at its very end |
| Settlement.AtomicReadsBracket | adapters/base.py:144-149 | with searches that look at their very end the true moment, no earlier than the acknowledgement, lies between the bounds |
| Settlement.SlowSearchMisleads | adapters/base.py:315-331 | a slow search whose reported interval misses the true moment |
| Settlement.MemoryAdapter.PlantCanary | adapters/base.py:283-301 | an accepted canary replaces the session's, acknowledged after it was submitted; a refused one changes nothing |
| Settlement.MemoryAdapter.IsSettled | adapters/base.py:307-331 | no canary is an error, a settled one answers without reading, a pending one is polled exactly once |
| Settlement.MemoryAdapter.PollUntil | adapters/base.py:342-348 | the polling loop ends after at most ceil(timeout / step) + 1 polls, after exactly one if and only if that poll decides; only its last poll can have seen the marker, and giving up means the deadline has passed |
| Settlement.MemoryAdapter.CleanUp | adapters/base.py:349-357 | the outcome is recorded and the cleanup noted without touching the history |
| Settlement.MemoryAdapter.WaitSettled | adapters/base.py:333-360 | a pending canary is reused and any other case plants one; result, flags and polls agree with the record and with the last search; other sessions are untouched |
| Settlement.MemoryAdapter.WaitAgain | adapters/base.py:339-348 | after a wait that gave up, a second one polls the same canary, exactly once if and only if that poll decides, always so for a timeout no longer than the first; once the marker is deleted it cannot settle and gives up unless the search raises |
| Settlement.MemoryAdapter.Reset | adapters/base.py:214-223 | a reset forgets the session's canary unless it fails |
| Wilson.Inversion | analysis/statistics.py:22-30 | low <= r <= high exactly when n (p - r)^2 <= z^2 r (1 - r) |
| Wilson.InversionExactly | analysis/statistics.py:22-30 | that equivalence holds for all shares exactly when z >= 0 |
| Wilson.EmptyWhenNegative | analysis/statistics.py:27-30 | a negative z gives an interval that holds nothing |
| Wilson.PointInside | analysis/statistics.py:26-30 | low <= point <= high |
| Wilson.ClampsInactive | analysis/statistics.py:30-30 | over the reals the clamps to 0 and 1 never change an end |
| Wilson.Reflection | analysis/statistics.py:22-30 | the interval of n - s is the reflection of that of s |
| Wilson.RootUnique | analysis/statistics.py:29-29 | the non-negative square root is unique, so the interval is determined |
| Wilson.VerdictExactly | scripts/reproduce_mem0.py:50-59 | a published value is reproduced exactly when within the tolerance or a share that the score test does not reject: no square root needed |
| McNemar.CombIsFactorialQuotient | analysis/statistics.py:93-93 | the coefficients are n! / (k! (n - k)!) |
| McNemar.WholeRow | analysis/statistics.py:93-93 | a row of Pascal's triangle sums to 2^n |
| McNemar.TailsFillRow | analysis/statistics.py:93-93 | a lower tail and the matching upper tail make up the row |
| McNemar.ClampActiveExactly | analysis/statistics.py:93-94 | twice the tail exceeds 1 exactly for equal discordant counts and is 1 exactly when they differ by one |
| McNemar.PValueRange | analysis/statistics.py:94-94 | 0 < p <= 1, and p = 1 exactly when the counts differ by at most one |
| McNemar.PValueMeaning | analysis/statistics.py:92-94 | p is the probability, with each discordant pair falling to either system with equal chance, of a split at least as unequal as the one seen |
| McNemar.BalanceRaisesPValue | analysis/statistics.py:92-94 | for a fixed number of discordant pairs a more balanced split has the larger p, strictly until it reaches 1 |
| McNemar.AccuracyDelta | analysis/statistics.py:90-94 | accuracy_delta = (b01 - b10) / N, and absent for no items |
| McNemar.CountsExactly | analysis/statistics.py:90-94 | b01 counts the items only the second system got right, b10 those only the first did, and the delta is the second accuracy minus the first |
| McNemar.SwapKeepsPValue | analysis/statistics.py:86-94 | unequal lengths are an error; swapping the systems swaps the counts and keeps p |
| Quantiles.SortSorts | load/histogram.py:7-7 | sorting gives a sorted rearrangement |
| Quantiles.SortedUnique | load/histogram.py:7-7 | there is only one |
| Quantiles.PercentileIsLeast | analysis/statistics.py:63-69 | the percentile is the least sample with at least q percent of the samples at or below it |
| Quantiles.PercentileEnds | analysis/statistics.py:63-69 | no value gives no percentile, levels up to 0 the least and from 100 the greatest |
| Quantiles.PresentExactly | analysis/statistics.py:65-65 | missing values do not count, every other value as often as it occurs |
| Quantiles.QuantileMonotone | load/histogram.py:5-8 | quantiles grow with the level |
| Quantiles.QuantileExtremes | load/histogram.py:5-8 | level 0 is the least sample, level 1 the greatest, the others lie between |
| Quantiles.QuantileAffine | load/histogram.py:5-8 | between neighbouring ranks the quantile is the weighted mean of the two sorted samples |
| Quantiles.QuantileIgnoresOrder | load/histogram.py:5-8 | only the multiset of samples matters |
| Quantiles.WithinOneOrderStatistic | load/histogram.py:5-8 | for the same level the interpolated quantile lies between the sorted neighbours of the nearest-rank percentile |
| Ranking.SortIsStable | analysis/rank.py:5-7 | the ranking is sorted by accuracy, then latency, and keeps rows of equal key in their order |
| Ranking.StableSortUnique | analysis/rank.py:5-7 | any sorted list with the same classes in the same order is the ranking |
| Ranking.LimitsOnlyFilter | analysis/rank.py:5-7 | ranking under limits is the unlimited ranking with rows taken out |
| Ranking.RankExactly | analysis/rank.py:5-7 | the ranking holds the rows within both limits, bounds included, by falling accuracy and then rising latency |
| Ranking.WinnerIsBest | analysis/rank.py:5-7 | the winner is admitted and no admitted row comes before it |
| Ranking.InversionExactly | analysis/rank.py:8-10 | observed means two winners of different systems, and then the unconstrained winner breaks a limit; with one row per system also conversely |
| Ranking.Antichain | analysis/rank.py:3-4 | no row of the front dominates another |
| Ranking.ParetoExactly | analysis/rank.py:3-4 | the front keeps, with their multiplicity, the rows for which no row is more accurate at no more latency, nor as accurate at less |
| Ranking.DroppedIsDominated | analysis/rank.py:3-4 | every dropped row is dominated by a kept one |
| Ranking.ParetoIdempotent | analysis/rank.py:3-4 | the front of the front is the front |
| Ranking.LatencyWinnerOnFront | analysis/rank.py:3-7 | the winner under a latency limit alone is on the front |
| Ranking.WinnerOnFrontExactly | analysis/rank.py:3-7 | the winner under any limits is on the front if and only if no row beyond the token limit dominates all the most accurate admitted rows |
| Ranking.DominatesWinnerExactly | analysis/rank.py:3-7 | a row dominates the winner exactly when it dominates every most accurate admitted row |
| Ranking.TokenWinnerMayBeOffFront | analysis/rank.py:3-7 | two rows and a token limit for which the winner is off the front |

## Left out

- CallRecords.CallRecord.Resume: models which branch is taken, statuses, error type, logging and the strings that decide whether the record can be encoded; timing marks, byte counts and hashes of requests, local token estimates, the wording of error messages and what else is taken from a non-streamed reply are not in it.
- CallRecords.CallRecord.StreamBody: usage counts are integers or null; that a log of response bodies may raise in the final block counts as a failing close.
- StreamEvents.PayloadsAppend: what a data line holds, whether it raises, and what it has taught by then, is an arbitrary function of its bytes; JSON decoding itself and the exact effect of a usage object whose counts cannot be added are not in it.
- ModelCalls.OneModelCall: request ids are fresh by assumption, and the log is open and its disk takes every write; strings that come from the HTTP library, such as paths, user agents and its error messages, can be encoded.
- Admissions.Attribute: the registry holds validated tags only, which is what its HTTP interface enters.
- TagToken.DecodeEncode: numbers with a fraction or an exponent, and nested values, are read, but how the one is rounded and how the other is shown as text is arbitrary; nesting that is too deep for the host is one of the values that may be refused.
- Tags.NormalizeTags: digits of other scripts in a seed, and the interpreter's limit on very long integers, are not modelled.
- EventLog.Writer.Append: no torn last line, no failing write, no caller-supplied number and one writer at a time; timestamps and fsync are left out.
- BenchRun.Runner.RunInstance: adapter events between the runner's own, timings and the reasons of failures are left out; of the writes to the log only that of the first event can fail by itself, the others as part of their stage, and those of ERROR and INSTANCE_END do not.
- Selection.Shuffle: the generator is arbitrary, so nothing is said about equal selections for equal seeds.
- OpenLoop.QueueingBound: like EverythingEnds and LoadEnds it holds for schedules in which a granted slot is used at once and no operation takes longer than the given service time, as its premise says; cancellation of a waiting request is not modelled, nor is the text of an operation's error.
- Settlement.MemoryAdapter.WaitSettled: the rounds of a wait must advance the clock by some positive step, since otherwise the loop need not end; one session is not waited for twice at the same time; identifiers, wall-clock strings and emitted events are left out.
- Wilson.Inversion: exact over the reals with the square root given as the non-negative root; rounding is not modelled, and a negative radicand has no root.
- McNemar.PValueRange: rational arithmetic, no rounding.
- Quantiles.WithinOneOrderStatistic: levels between 0 and 1, the range the callers use; samples are reals, so not-a-number does not occur.
- Ranking.SortIsStable: rows carry the four fields the ranking reads; comparisons are over the reals.
- Adding a usage request to the forwarded body, and the setting that controls it: hiding depends only on what the client asked for.
- The adapters for mem0, Zep and Letta, the model clients, settings, host metadata, compose files, figures, tables and prompts: calls into other services, or presentation.
- Fault injection, arrival and workload generators, preflight and validation checks, write splitting: short facts that would only add easy members.
- Bootstrap intervals and the two-proportion z-test: they rest on a random stream or the error function, so no sharp exact statement is available.
