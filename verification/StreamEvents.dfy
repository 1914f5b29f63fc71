/** What one server-sent event means: its data lines, the payloads they carry, what is
    learnt from them and whether the event is hidden from the client. */
module StreamEvents {
  import opened Common
  import opened SseFraming
  import opened Text

  /** The members of a usage object: the five the proxy knows, and any other. */
  datatype Counter = PromptTokens | CompletionTokens | TotalTokens | InputTokens | OutputTokens | Detail(name: Text)

  type Usage = map<Counter, Option<int>>

  datatype Choice = Choice(content: Option<Text>, finishReason: Option<Text>)

  /** The members of a JSON object that the proxy looks at; None where absent, or of another type that it
      passes over. */
  datatype Payload = Payload(
    model: Option<Text>,
    choices: seq<Option<Choice>>,
    usage: Option<Usage>,
    responseUsage: Option<Usage>)

  /** Reading one data line: an object; something to skip, which is JSON of another kind or a syntax error;
      or an exception of another kind, raised by the decoder, as for bytes that are not UTF-8, or at a
      member of an unexpected type, after what came before that member has been learnt. */
  datatype Parsed = Object(payload: Payload) | Skip | Raises(learnt: Option<Payload>)

  type Parser = Bytes -> Parsed

  /** What the stream has taught the call record so far. */
  datatype Facts = Facts(
    upstreamModel: Option<Text>,
    completionText: seq<Text>,
    finishReason: Option<Text>,
    usage: map<Counter, int>,
    usageFromUpstream: bool)

  // ---- lines -------------------------------------------------------------

  const DATA_PREFIX: Bytes := [100, 97, 116, 97, 58]
  const DONE: Bytes := [91, 68, 79, 78, 69, 93]

  function StripCr(line: Bytes): (r: Bytes) {
    if line != [] && line[|line| - 1] == CR then StripCr(line[..|line| - 1]) else line
  }

  predicate IsBlank(b: Byte) {
    b == 32 || 9 <= b <= 13
  }

  function TrimLeft(b: Bytes): (r: Bytes) {
    if b != [] && IsBlank(b[0]) then TrimLeft(b[1..]) else b
  }

  function TrimRight(b: Bytes): (r: Bytes) {
    if b != [] && IsBlank(b[|b| - 1]) then TrimRight(b[..|b| - 1]) else b
  }

  /** What a line asks to be decoded, if it is a data line other than the end marker. */
  function LineData(line: Bytes): (r: Option<Bytes>) {
    var text := StripCr(line);
    if !(DATA_PREFIX <= text) then None
    else
      var data := TrimRight(TrimLeft(text[5..]));
      if data == DONE then None else Some(data)
  }

  predicate AllBlank(b: Bytes) {
    forall i | 0 <= i < |b| :: b[i] == 32 || 9 <= b[i] <= 13
  }

  predicate Trimmed(b: Bytes) {
    b != [] ==> !IsBlank(b[0]) && !IsBlank(b[|b| - 1])
  }

  lemma {:induction false} TrimLeftSplits(b: Bytes) returns (pre: Bytes)
    ensures b == pre + TrimLeft(b) && AllBlank(pre)
    ensures TrimLeft(b) != [] ==> !IsBlank(TrimLeft(b)[0])
  {
    if b != [] && IsBlank(b[0]) {
      var rest := TrimLeftSplits(b[1..]);
      pre := [b[0]] + rest;
      Assoc([b[0]], rest, TrimLeft(b));
      assert b == [b[0]] + b[1..];
    } else {
      pre := [];
    }
  }

  lemma {:induction false} TrimRightSplits(b: Bytes) returns (post: Bytes)
    ensures b == TrimRight(b) + post && AllBlank(post)
    ensures TrimRight(b) != [] ==> !IsBlank(TrimRight(b)[|TrimRight(b)| - 1]) && TrimRight(b)[0] == b[0]
  {
    if b != [] && IsBlank(b[|b| - 1]) {
      var last, init := [b[|b| - 1]], b[..|b| - 1];
      var rest := TrimRightSplits(init);
      post := rest + last;
      Assoc(TrimRight(b), rest, last);
      assert b == init + last;
    } else {
      post := [];
      assert b + [] == b;
    }
  }

  lemma {:induction false} TrimLeftOf(pre: Bytes, b: Bytes)
    requires AllBlank(pre) && (b != [] ==> !IsBlank(b[0]))
    ensures TrimLeft(pre + b) == b
  {
    if pre == [] {
      assert pre + b == b;
    } else {
      assert (pre + b)[1..] == pre[1..] + b;
      TrimLeftOf(pre[1..], b);
    }
  }

  lemma {:induction false} TrimRightOf(b: Bytes, post: Bytes)
    requires AllBlank(post) && (b != [] ==> !IsBlank(b[|b| - 1]))
    ensures TrimRight(b + post) == b
    decreases |post|
  {
    if post == [] {
      assert b + post == b;
    } else {
      assert (b + post)[..|b + post| - 1] == b + post[..|post| - 1];
      TrimRightOf(b, post[..|post| - 1]);
    }
  }

  /** Carriage returns at the end are blanks at the end. */
  lemma {:induction false} StripCrSplits(line: Bytes) returns (crs: Bytes)
    ensures line == StripCr(line) + crs && AllBlank(crs)
    ensures forall i: nat | i < |line| && line[i] != CR :: i < |StripCr(line)|
  {
    if line != [] && line[|line| - 1] == CR {
      var last, init := [line[|line| - 1]], line[..|line| - 1];
      var rest := StripCrSplits(init);
      crs := rest + last;
      Assoc(StripCr(line), rest, last);
      assert line == init + last;
      assert forall i | 0 <= i < |init| :: line[i] == init[i];
    } else {
      crs := [];
      assert line + [] == line;
    }
  }

  lemma TrimIgnoresEnd(b: Bytes, crs: Bytes)
    requires AllBlank(crs)
    ensures TrimRight(TrimLeft(b + crs)) == TrimRight(TrimLeft(b))
  {
    var pre := TrimLeftSplits(b);
    var body := TrimLeft(b);
    var post := TrimRightSplits(body);
    var d := TrimRight(body);
    hide TrimLeft, TrimRight;
    BlanksJoin(post, crs);
    Assoc(pre, body, crs);
    Assoc(d, post, crs);
    if d == [] {
      BlanksJoin(pre, post);
      BlanksJoin(pre + post, crs);
      assert b + crs == (pre + post + crs) + [];
      TrimLeftOf(pre + post + crs, []);
      TrimRightOf([], []);
      var none: Bytes := [];
      assert none + post == post && none + none == none;
    } else {
      assert (d + (post + crs))[0] == d[0];
      TrimLeftOf(pre, d + (post + crs));
      TrimRightOf(d, post + crs);
    }
  }

  lemma BlanksJoin(a: Bytes, b: Bytes)
    requires AllBlank(a) && AllBlank(b)
    ensures AllBlank(a + b)
  {
  }

  ghost predicate SplitsAs(line: Bytes, pre: Bytes, d: Bytes, post: Bytes) {
    AllBlank(pre) && AllBlank(post) && line == [100, 97, 116, 97, 58] + pre + d + post
  }

  /** A line has this data exactly when it is "data:", the data and blanks around it, and the data is not
      "[DONE]". */
  lemma LineDataExactly(line: Bytes, d: Bytes)
    ensures LineData(line) == Some(d) <==>
              Trimmed(d) && d != [91, 68, 79, 78, 69, 93] && exists pre, post :: SplitsAs(line, pre, d, post)
  {
    hide SplitsAs, LineData, Trimmed;
    if LineData(line) == Some(d) {
      var pre, post := DataSplits(line, d);
    }
    if Trimmed(d) && d != [91, 68, 79, 78, 69, 93] && exists pre, post :: SplitsAs(line, pre, d, post) {
      var pre, post :| SplitsAs(line, pre, d, post);
      SplitIsData(line, pre, d, post);
    }
  }

  lemma DataSplits(line: Bytes, d: Bytes) returns (pre: Bytes, post: Bytes)
    requires LineData(line) == Some(d)
    ensures SplitsAs(line, pre, d, post) && Trimmed(d) && d != [91, 68, 79, 78, 69, 93]
  {
    var crs := StripCrSplits(line);
    var text := StripCr(line);
    var body := text[5..];
    pre := TrimLeftSplits(body);
    post := TrimRightSplits(TrimLeft(body));
    hide StripCr, TrimLeft, TrimRight;
    BlanksJoin(post, crs);
    assert line == [100, 97, 116, 97, 58] + pre + d + (post + crs);
    post := post + crs;
  }

  lemma SplitIsData(line: Bytes, pre: Bytes, d: Bytes, post: Bytes)
    requires SplitsAs(line, pre, d, post) && Trimmed(d)
    ensures d != [91, 68, 79, 78, 69, 93] ==> LineData(line) == Some(d)
  {
    var body := PrefixStays(line, pre + (d + post));
    hide StripCr, TrimLeft, TrimRight, SplitsAs, Trimmed;
    DataOf(pre, d, post);
  }

  /** Taking carriage returns off the end leaves the prefix alone. */
  lemma PrefixStays(line: Bytes, rest: Bytes) returns (body: Bytes)
    requires line == [100, 97, 116, 97, 58] + rest
    ensures StripCr(line) == DATA_PREFIX + body && StripCr(line)[5..] == body
    ensures TrimRight(TrimLeft(body)) == TrimRight(TrimLeft(rest))
  {
    var crs := StripCrSplits(line);
    assert line[4] == 58;
    var text := StripCr(line);
    hide StripCr, TrimLeft, TrimRight;
    body := text[5..];
    assert text == line[..|text|];
    assert text == DATA_PREFIX + body;
    assert rest == line[5..] == body + crs;
    TrimIgnoresEnd(body, crs);
  }

  lemma DataOf(pre: Bytes, d: Bytes, post: Bytes)
    requires AllBlank(pre) && AllBlank(post) && Trimmed(d)
    ensures TrimRight(TrimLeft(pre + (d + post))) == d
  {
    if d == [] {
      assert pre + (d + post) == (pre + post) + [];
      TrimLeftOf(pre + post, []);
    } else {
      TrimLeftOf(pre, d + post);
      TrimRightOf(d, post);
    }
  }

  /** The payload of one line, if it is a data line holding a JSON object. */
  function LinePayload(parse: Parser, line: Bytes): (r: seq<Payload>)
    ensures |r| <= 1
  {
    match LineData(line)
    case None => []
    case Some(data) => (match parse(data) case Object(p) => [p] case _ => [])
  }

  /** What a line that raises has taught before. */
  function RaisedPayload(parse: Parser, line: Bytes): (r: seq<Payload>)
    ensures |r| <= 1
  {
    match LineData(line)
    case None => []
    case Some(data) => (match parse(data) case Raises(Some(p)) => [p] case _ => [])
  }

  predicate LineRaises(parse: Parser, line: Bytes) {
    LineData(line).Some? && parse(LineData(line).value).Raises?
  }

  function LinesPayloads(parse: Parser, lines: seq<Bytes>): (r: seq<Payload>) {
    if lines == [] then [] else LinePayload(parse, lines[0]) + LinesPayloads(parse, lines[1..])
  }

  /** All payloads carried by a stretch of the stream. */
  function Payloads(parse: Parser, b: Bytes): (r: seq<Payload>) {
    LinesPayloads(parse, Lines(b))
  }

  lemma LinesPayloadsAppend(parse: Parser, xs: seq<Bytes>, ys: seq<Bytes>)
    ensures LinesPayloads(parse, xs + ys) == LinesPayloads(parse, xs) + LinesPayloads(parse, ys)
  {
    if xs == [] {
      assert xs + ys == ys;
    } else {
      assert (xs + ys)[1..] == xs[1..] + ys;
    }
  }

  lemma EmptyLineCarriesNothing(parse: Parser)
    ensures LinesPayloads(parse, [[]]) == []
  {
    assert LinePayload(parse, []) == [];
  }

  lemma {:induction false} PayloadsUpToLf(parse: Parser, line: Bytes, b: Bytes)
    ensures Payloads(parse, line + [LF] + b) == Payloads(parse, line) + Payloads(parse, b)
  {
    LinesAfterLf(line, b);
    LinesPayloadsAppend(parse, Lines(line), Lines(b));
  }

  /** Cutting right after a line feed neither loses, invents nor reorders payloads. */
  lemma {:induction false} PayloadsAppend(parse: Parser, a: Bytes, b: Bytes)
    requires a == [] || a[|a| - 1] == LF
    ensures Payloads(parse, a + b) == Payloads(parse, a) + Payloads(parse, b)
  {
    EmptyLineCarriesNothing(parse);
    assert Payloads(parse, []) == [];
    if a == [] {
      assert a + b == b;
    } else {
      var init := a[..|a| - 1];
      assert a == init + [LF];
      PayloadsUpToLf(parse, init, b);
      PayloadsUpToLf(parse, init, []);
      assert init + [LF] + [] == a;
    }
  }

  // ---- lines that raise --------------------------------------------------

  /** No line of the stretch raises. */
  predicate Readable(parse: Parser, b: Bytes) {
    LinesReadable(parse, Lines(b))
  }

  predicate LinesReadable(parse: Parser, lines: seq<Bytes>) {
    forall i | 0 <= i < |lines| :: !LineRaises(parse, lines[i])
  }

  function LinesBeforeRaise(parse: Parser, lines: seq<Bytes>): (r: seq<Bytes>) {
    if lines == [] || LineRaises(parse, lines[0]) then []
    else [lines[0]] + LinesBeforeRaise(parse, lines[1..])
  }

  /** The payloads of the lines before the first that raises, and what that one taught. */
  function Opening(parse: Parser, e: Bytes): (r: seq<Payload>) {
    OpeningOf(parse, Lines(e))
  }

  function OpeningOf(parse: Parser, lines: seq<Bytes>): (r: seq<Payload>) {
    var before := LinesBeforeRaise(parse, lines);
    LinesPayloads(parse, before) + (if |before| < |lines| then RaisedPayload(parse, lines[|before|]) else [])
  }

  lemma {:induction false} BeforeRaise(parse: Parser, lines: seq<Bytes>, i: nat)
    requires i < |lines| && LineRaises(parse, lines[i]) && LinesReadable(parse, lines[..i])
    ensures LinesBeforeRaise(parse, lines) == lines[..i]
  {
    if i > 0 {
      assert !LineRaises(parse, lines[..i][0]);
      assert lines[1..][..i - 1] == lines[..i][1..];
      BeforeRaise(parse, lines[1..], i - 1);
    }
  }

  lemma EmptyLineIsReadable(parse: Parser)
    ensures !LineRaises(parse, []) && Readable(parse, [])
  {
  }

  lemma ReadableJoin(parse: Parser, xs: seq<Bytes>, ys: seq<Bytes>)
    ensures LinesReadable(parse, xs + ys) <==> LinesReadable(parse, xs) && LinesReadable(parse, ys)
  {
    assert forall i | 0 <= i < |xs| :: (xs + ys)[i] == xs[i];
    assert forall i | 0 <= i < |ys| :: (xs + ys)[|xs| + i] == ys[i];
  }

  /** Cutting right after a line feed, both parts are readable exactly when the whole is. */
  lemma {:induction false} ReadableAppend(parse: Parser, a: Bytes, b: Bytes)
    requires a == [] || a[|a| - 1] == LF
    ensures Readable(parse, a + b) <==> Readable(parse, a) && Readable(parse, b)
  {
    EmptyLineIsReadable(parse);
    if a == [] {
      assert a + b == b;
    } else {
      var init := a[..|a| - 1];
      assert a == init + [LF] && init + [LF] + [] == a;
      LinesAfterLf(init, b);
      LinesAfterLf(init, []);
      hide Lines, LineRaises, LinesReadable;
      ReadableJoin(parse, Lines(init), Lines(b));
      ReadableJoin(parse, Lines(init), Lines([]));
    }
  }

  // ---- usage -------------------------------------------------------------

  function Given(u: Usage): (r: map<Counter, int>) {
    map k | k in u && u[k].Some? :: u[k].value
  }

  function WithAlias(u: map<Counter, int>, name: Counter, alias: Counter): (r: map<Counter, int>) {
    if name !in u && alias in u then u[name := u[alias]] else u
  }

  function WithTotal(u: map<Counter, int>): (r: map<Counter, int>) {
    if TotalTokens !in u && PromptTokens in u then
      u[TotalTokens := u[PromptTokens] + (if CompletionTokens in u then u[CompletionTokens] else 0)]
    else u
  }

  function Normalised(u: Usage): (r: map<Counter, int>) {
    WithTotal(WithAlias(WithAlias(Given(u), PromptTokens, InputTokens), CompletionTokens, OutputTokens))
  }

  /** The report does not count this, or says null. */
  predicate Missing(u: Usage, k: Counter) {
    k !in u || u[k].None?
  }

  /** Normalisation only adds the three chat names, and settles: doing it again changes nothing. */
  lemma NormalisedSettles(u: Usage)
    ensures forall k | k in Given(u) :: k in Normalised(u) && Normalised(u)[k] == Given(u)[k]
    ensures forall k | k in Normalised(u) ::
              k in Given(u) || k == PromptTokens || k == CompletionTokens || k == TotalTokens
    ensures Normalised(map k | k in Normalised(u) :: Some(Normalised(u)[k])) == Normalised(u)
    ensures TotalTokens !in Given(u) && (PromptTokens in Given(u) || InputTokens in Given(u)) ==>
              && PromptTokens in Normalised(u) && TotalTokens in Normalised(u)
              && Normalised(u)[TotalTokens] == Normalised(u)[PromptTokens]
                 + (if CompletionTokens in Normalised(u) then Normalised(u)[CompletionTokens] else 0)
    ensures forall k, n | k in u && u[k] == Some(n) :: k in Normalised(u) && Normalised(u)[k] == n
    ensures Missing(u, PromptTokens) ==>
              (PromptTokens in Normalised(u) <==> !Missing(u, InputTokens))
              && (PromptTokens in Normalised(u) ==> Some(Normalised(u)[PromptTokens]) == u[InputTokens])
    ensures Missing(u, CompletionTokens) ==>
              (CompletionTokens in Normalised(u) <==> !Missing(u, OutputTokens))
              && (CompletionTokens in Normalised(u) ==> Some(Normalised(u)[CompletionTokens]) == u[OutputTokens])
    ensures TotalTokens in Normalised(u) <==> !Missing(u, TotalTokens) || !Missing(u, PromptTokens) || !Missing(u, InputTokens)
  {
    var r := Normalised(u);
    var again: Usage := map k | k in r :: Some(r[k]);
    assert Given(again) == r;
  }

  // ---- payload lists -----------------------------------------------------

  function ModelOf(p: Payload): (r: seq<Text>) {
    if p.model.Some? then [p.model.value] else []
  }

  function DeltasOf(choices: seq<Option<Choice>>): (r: seq<Text>) {
    if choices == [] then []
    else
      var c := choices[0];
      (if c.Some? && c.value.content.Some? then [c.value.content.value] else []) + DeltasOf(choices[1..])
  }

  function FinishesOf(choices: seq<Option<Choice>>): (r: seq<Text>) {
    if choices == [] then []
    else
      var c := choices[0];
      (if c.Some? && c.value.finishReason.Some? && c.value.finishReason.value != [] then [c.value.finishReason.value]
       else []) + FinishesOf(choices[1..])
  }

  /** The usage object a payload reports: its own if non-empty, else that of the response it carries. */
  function UsageOf(p: Payload): (r: seq<Usage>) {
    if p.usage.Some? && p.usage.value != map[] then [p.usage.value]
    else if p.responseUsage.Some? && p.responseUsage.value != map[] then [p.responseUsage.value]
    else []
  }

  function ModelsOf(ps: seq<Payload>): (r: seq<Text>) {
    if ps == [] then [] else ModelOf(ps[0]) + ModelsOf(ps[1..])
  }

  function TextOf(ps: seq<Payload>): (r: seq<Text>) {
    if ps == [] then [] else DeltasOf(ps[0].choices) + TextOf(ps[1..])
  }

  function AllFinishesOf(ps: seq<Payload>): (r: seq<Text>) {
    if ps == [] then [] else FinishesOf(ps[0].choices) + AllFinishesOf(ps[1..])
  }

  function UsagesOf(ps: seq<Payload>): (r: seq<Usage>) {
    if ps == [] then [] else UsageOf(ps[0]) + UsagesOf(ps[1..])
  }

  lemma {:induction false} ModelsOfAppend(ps: seq<Payload>, qs: seq<Payload>)
    ensures ModelsOf(ps + qs) == ModelsOf(ps) + ModelsOf(qs)
  {
    if ps == [] {
      assert ps + qs == qs;
    } else {
      hide ModelOf;
      ModelsOfAppend(ps[1..], qs);
      assert (ps + qs)[1..] == ps[1..] + qs;
      Assoc(ModelOf(ps[0]), ModelsOf(ps[1..]), ModelsOf(qs));
    }
  }

  lemma {:induction false} TextOfAppend(ps: seq<Payload>, qs: seq<Payload>)
    ensures TextOf(ps + qs) == TextOf(ps) + TextOf(qs)
  {
    if ps == [] {
      assert ps + qs == qs;
    } else {
      hide DeltasOf;
      TextOfAppend(ps[1..], qs);
      assert (ps + qs)[1..] == ps[1..] + qs;
      Assoc(DeltasOf(ps[0].choices), TextOf(ps[1..]), TextOf(qs));
    }
  }

  lemma {:induction false} AllFinishesOfAppend(ps: seq<Payload>, qs: seq<Payload>)
    ensures AllFinishesOf(ps + qs) == AllFinishesOf(ps) + AllFinishesOf(qs)
  {
    if ps == [] {
      assert ps + qs == qs;
    } else {
      hide FinishesOf;
      AllFinishesOfAppend(ps[1..], qs);
      assert (ps + qs)[1..] == ps[1..] + qs;
      Assoc(FinishesOf(ps[0].choices), AllFinishesOf(ps[1..]), AllFinishesOf(qs));
    }
  }

  lemma {:induction false} UsagesOfAppend(ps: seq<Payload>, qs: seq<Payload>)
    ensures UsagesOf(ps + qs) == UsagesOf(ps) + UsagesOf(qs)
  {
    if ps == [] {
      assert ps + qs == qs;
    } else {
      hide UsageOf;
      UsagesOfAppend(ps[1..], qs);
      assert (ps + qs)[1..] == ps[1..] + qs;
      Assoc(UsageOf(ps[0]), UsagesOf(ps[1..]), UsagesOf(qs));
    }
  }

  lemma {:induction false} ListsOfOne(p: Payload)
    ensures ModelsOf([p]) == ModelOf(p)
    ensures TextOf([p]) == DeltasOf(p.choices)
    ensures AllFinishesOf([p]) == FinishesOf(p.choices)
    ensures UsagesOf([p]) == UsageOf(p)
  {
    assert [p][1..] == [];
  }

  function FirstOf<T>(seen: Option<T>, xs: seq<T>): (r: Option<T>) {
    if seen.Some? || xs == [] then seen else Some(xs[0])
  }

  function LastOf<T>(seen: Option<T>, xs: seq<T>): (r: Option<T>) {
    if xs == [] then seen else Some(xs[|xs| - 1])
  }

  /** The record after the payloads `ps`: the first model named, every text delta in order,
      the last finish reason and the last usage report. */
  function Summary(f: Facts, ps: seq<Payload>): (r: Facts) {
    var report := LastOf(None, UsagesOf(ps));
    Facts(
      FirstOf(f.upstreamModel, ModelsOf(ps)),
      f.completionText + TextOf(ps),
      LastOf(f.finishReason, AllFinishesOf(ps)),
      if report.Some? then Normalised(report.value) else f.usage,
      f.usageFromUpstream || report.Some?)
  }

  lemma OnesAppend<T>(seen: Option<T>, xs: seq<T>, ys: seq<T>)
    ensures FirstOf(seen, xs + ys) == FirstOf(FirstOf(seen, xs), ys)
    ensures LastOf(seen, xs + ys) == LastOf(LastOf(seen, xs), ys)
  {
  }

  lemma ReportsAppend(xs: seq<Usage>, ys: seq<Usage>)
    ensures LastOf(None, xs + ys) == if LastOf(None, ys).Some? then LastOf(None, ys) else LastOf(None, xs)
  {
  }

  /** Learning from two stretches one after the other is learning from both at once. */
  lemma {:induction false} SummaryAppend(f: Facts, ps: seq<Payload>, qs: seq<Payload>)
    ensures Summary(f, ps + qs) == Summary(Summary(f, ps), qs)
  {
    hide ModelsOf, TextOf, AllFinishesOf, UsagesOf, FirstOf, LastOf, Normalised;
    ModelsOfAppend(ps, qs);
    TextOfAppend(ps, qs);
    AllFinishesOfAppend(ps, qs);
    UsagesOfAppend(ps, qs);
    OnesAppend(f.upstreamModel, ModelsOf(ps), ModelsOf(qs));
    OnesAppend(f.finishReason, AllFinishesOf(ps), AllFinishesOf(qs));
    ReportsAppend(UsagesOf(ps), UsagesOf(qs));
    assert f.completionText + (TextOf(ps) + TextOf(qs)) == (f.completionText + TextOf(ps)) + TextOf(qs);
  }

  /** All choices of the payloads, in order. */
  function AllChoices(ps: seq<Payload>): (r: seq<Option<Choice>>) {
    if ps == [] then [] else AllChoices(ps[..|ps| - 1]) + ps[|ps| - 1].choices
  }

  predicate Reports(p: Payload) {
    (p.usage.Some? && p.usage.value != map[]) || (p.responseUsage.Some? && p.responseUsage.value != map[])
  }

  /** What is learnt, payload by payload: the model of the first that names one, unless one is known; the
      content of every choice that has some, in order; the finish reason of the last choice that has one that
      is not empty; the usage of the last payload that reports any, its own before that of its response. */
  lemma LearntExactly(f: Facts, ps: seq<Payload>) returns (texts: seq<Text>, at: seq<nat>)
    ensures f.upstreamModel.Some? || (forall k | 0 <= k < |ps| :: ps[k].model.None?) ==>
              Summary(f, ps).upstreamModel == f.upstreamModel
    ensures f.upstreamModel.None? ==>
              forall i | 0 <= i < |ps| && ps[i].model.Some? && (forall k | 0 <= k < i :: ps[k].model.None?) ::
                Summary(f, ps).upstreamModel == ps[i].model
    ensures Summary(f, ps).completionText == f.completionText + texts
    ensures Contents(AllChoices(ps), texts, at)
    ensures LastFinish(AllChoices(ps), f.finishReason, Summary(f, ps).finishReason)
    ensures (forall k | 0 <= k < |ps| :: !Reports(ps[k])) ==>
              Summary(f, ps).usage == f.usage && Summary(f, ps).usageFromUpstream == f.usageFromUpstream
    ensures forall i | 0 <= i < |ps| && Reports(ps[i]) && (forall k | i < k < |ps| :: !Reports(ps[k])) ::
              && Summary(f, ps).usageFromUpstream
              && Summary(f, ps).usage == Normalised(if ps[i].usage.Some? && ps[i].usage.value != map[] then ps[i].usage.value
                                                    else ps[i].responseUsage.value)
  {
    FirstModel(ps);
    AllDeltas(ps);
    texts := TextOf(ps);
    at := DeltasAt(AllChoices(ps));
    FinishAt(AllChoices(ps));
    LastReport(ps);
    hide Normalised, Contents, ModelsOf, UsagesOf, TextOf, AllFinishesOf, Reports, AllChoices, FinishesOf;
  }

  /** `texts` are the contents of the choices that have some. */
  predicate Contents(choices: seq<Option<Choice>>, texts: seq<Text>, at: seq<nat>) {
    && |texts| == |at|
    && (forall k, l | 0 <= k < l < |at| :: at[k] < at[l])
    && (forall k | 0 <= k < |at| ::
          at[k] < |choices| && choices[at[k]].Some? && choices[at[k]].value.content == Some(texts[k]))
    && (forall i: nat | i < |choices| && choices[i].Some? && choices[i].value.content.Some? :: i in at)
  }

  predicate Finishes(c: Option<Choice>) {
    c.Some? && c.value.finishReason.Some? && c.value.finishReason.value != []
  }

  /** The finish reason of the last choice that has one, else what was known. */
  predicate LastFinish(choices: seq<Option<Choice>>, known: Option<Text>, r: Option<Text>) {
    && ((forall k | 0 <= k < |choices| :: !Finishes(choices[k])) ==> r == known)
    && (forall i | 0 <= i < |choices| && Finishes(choices[i]) && (forall k | i < k < |choices| :: !Finishes(choices[k])) ::
          r == choices[i].value.finishReason)
  }

  lemma {:induction false} FirstModel(ps: seq<Payload>)
    ensures (forall k | 0 <= k < |ps| :: ps[k].model.None?) ==> ModelsOf(ps) == []
    ensures forall i | 0 <= i < |ps| && ps[i].model.Some? && (forall k | 0 <= k < i :: ps[k].model.None?) ::
              ModelsOf(ps) != [] && Some(ModelsOf(ps)[0]) == ps[i].model
  {
    if ps != [] {
      var rest := ps[1..];
      FirstModel(rest);
      assert forall k | 0 <= k < |rest| :: rest[k] == ps[k + 1];
      forall i | 0 <= i < |ps| && ps[i].model.Some? && (forall k | 0 <= k < i :: ps[k].model.None?)
        ensures ModelsOf(ps) != [] && Some(ModelsOf(ps)[0]) == ps[i].model
      {
        if i > 0 {
          assert rest[i - 1] == ps[i];
        }
      }
    }
  }

  lemma {:induction false} DeltasAppend(xs: seq<Option<Choice>>, ys: seq<Option<Choice>>)
    ensures DeltasOf(xs + ys) == DeltasOf(xs) + DeltasOf(ys)
  {
    if xs == [] {
      assert xs + ys == ys;
    } else {
      assert (xs + ys)[1..] == xs[1..] + ys;
      DeltasAppend(xs[1..], ys);
    }
  }

  lemma {:induction false} FinishesAppend(xs: seq<Option<Choice>>, ys: seq<Option<Choice>>)
    ensures FinishesOf(xs + ys) == FinishesOf(xs) + FinishesOf(ys)
  {
    if xs == [] {
      assert xs + ys == ys;
    } else {
      assert (xs + ys)[1..] == xs[1..] + ys;
      FinishesAppend(xs[1..], ys);
    }
  }

  lemma {:induction false} AllDeltas(ps: seq<Payload>)
    ensures TextOf(ps) == DeltasOf(AllChoices(ps))
    ensures AllFinishesOf(ps) == FinishesOf(AllChoices(ps))
    decreases |ps|
  {
    if ps != [] {
      var init, last := ps[..|ps| - 1], ps[|ps| - 1];
      assert ps == init + [last];
      AllDeltas(init);
      TextOfAppend(init, [last]);
      AllFinishesOfAppend(init, [last]);
      ListsOfOne(last);
      DeltasAppend(AllChoices(init), last.choices);
      FinishesAppend(AllChoices(init), last.choices);
      hide DeltasOf, FinishesOf, TextOf, AllFinishesOf;
    }
  }

  lemma DeltasSnoc(init: seq<Option<Choice>>, last: Option<Choice>)
    ensures DeltasOf(init + [last])
            == if last.Some? && last.value.content.Some? then DeltasOf(init) + [last.value.content.value] else DeltasOf(init)
  {
    DeltasAppend(init, [last]);
    assert [last][1..] == [];
    assert DeltasOf(init) + [] == DeltasOf(init);
  }

  lemma {:induction false} DeltasAt(choices: seq<Option<Choice>>) returns (at: seq<nat>)
    ensures Contents(choices, DeltasOf(choices), at)
    decreases |choices|
  {
    if choices == [] {
      at := [];
    } else {
      var init, last := choices[..|choices| - 1], choices[|choices| - 1];
      at := DeltasAt(init);
      assert choices == init + [last];
      DeltasSnoc(init, last);
      hide DeltasOf;
      if last.Some? && last.value.content.Some? {
        assert forall i :: i in at + [|init|] <==> i in at || i == |init|;
        at := at + [|init|];
      }
    }
  }

  lemma {:induction false} FinishAt(choices: seq<Option<Choice>>)
    ensures forall known :: LastFinish(choices, known, LastOf(known, FinishesOf(choices)))
    decreases |choices|
  {
    if choices != [] {
      var init, last := choices[..|choices| - 1], choices[|choices| - 1];
      FinishAt(init);
      assert choices == init + [last];
      FinishesSnoc(init, last);
      forall known ensures LastFinish(choices, known, LastOf(known, FinishesOf(choices))) {
        OneMoreFinish(init, last, known);
      }
    }
  }

  lemma FinishesSnoc(init: seq<Option<Choice>>, last: Option<Choice>)
    ensures FinishesOf(init + [last]) == FinishesOf(init) + (if Finishes(last) then [last.value.finishReason.value] else [])
  {
    FinishesAppend(init, [last]);
    assert [last][1..] == [];
  }

  lemma OneMoreFinish(init: seq<Option<Choice>>, last: Option<Choice>, known: Option<Text>)
    requires LastFinish(init, known, LastOf(known, FinishesOf(init)))
    ensures LastFinish(init + [last], known, LastOf(known, FinishesOf(init + [last])))
  {
    var choices := init + [last];
    FinishesSnoc(init, last);
    hide FinishesOf;
    assert forall k | 0 <= k < |init| :: choices[k] == init[k];
    assert choices[|init|] == last;
    hide Finishes;
    if !Finishes(last) {
      assert FinishesOf(init) + [] == FinishesOf(init);
    } else {
      assert last.value.finishReason.Some? by { FinishesHere(last); }
    }
  }

  lemma FinishesHere(c: Option<Choice>)
    requires Finishes(c)
    ensures c.Some? && c.value.finishReason.Some?
  {
  }

  /** The usage a payload reports, if it does. */
  function ReportOf(p: Payload): (u: Option<Usage>)
    ensures u.Some? <==> Reports(p)
  {
    if p.usage.Some? && p.usage.value != map[] then p.usage
    else if p.responseUsage.Some? && p.responseUsage.value != map[] then p.responseUsage else None
  }

  lemma {:induction false} LastReport(ps: seq<Payload>)
    ensures (forall k | 0 <= k < |ps| :: !Reports(ps[k])) ==> UsagesOf(ps) == []
    ensures forall i | 0 <= i < |ps| && Reports(ps[i]) && (forall k | i < k < |ps| :: !Reports(ps[k])) ::
              LastOf(None, UsagesOf(ps)) == ReportOf(ps[i])
    decreases |ps|
  {
    hide UsagesOf, Reports, ReportOf;
    if ps == [] {
      NoUsages();
    } else {
      var init, last := ps[..|ps| - 1], ps[|ps| - 1];
      LastReport(init);
      assert ps == init + [last];
      UsagesSnoc(init, last);
      assert forall k | 0 <= k < |init| :: ps[k] == init[k];
      assert UsagesOf(init) + [] == UsagesOf(init);
    }
  }

  lemma NoUsages()
    ensures UsagesOf([]) == []
  {
  }

  lemma UsagesSnoc(init: seq<Payload>, last: Payload)
    ensures UsagesOf(init + [last]) == UsagesOf(init) + (if Reports(last) then [ReportOf(last).value] else [])
  {
    UsagesOfAppend(init, [last]);
    ListsOfOne(last);
  }

  // ---- hiding ------------------------------------------------------------

  /** A usage report without choices: hidden from a client that did not ask for usage. */
  predicate UsageOnly(p: Payload) {
    p.usage.Some? && p.usage.value != map[] && p.choices == []
  }

  predicate Keeps(parse: Parser, requested: bool, e: Bytes) {
    requested || forall p | p in Payloads(parse, e) :: !UsageOnly(p)
  }

  function Kept(parse: Parser, requested: bool, events: seq<Bytes>): (r: seq<Bytes>) {
    if events == [] then []
    else (if Keeps(parse, requested, events[0]) then [events[0]] else []) + Kept(parse, requested, events[1..])
  }

  lemma KeptAppend(parse: Parser, requested: bool, xs: seq<Bytes>, ys: seq<Bytes>)
    ensures Kept(parse, requested, xs + ys) == Kept(parse, requested, xs) + Kept(parse, requested, ys)
  {
    if xs == [] {
      assert xs + ys == ys;
    } else {
      assert (xs + ys)[1..] == xs[1..] + ys;
    }
  }

  lemma KeptAll(parse: Parser, events: seq<Bytes>)
    ensures Kept(parse, true, events) == events
  {
  }

  // ---- delivery ----------------------------------------------------------

  /** The events of a whole stream: the framed ones, and what is left at its end. */
  function Events(b: Bytes): (r: seq<Bytes>) {
    Frames(b) + (if Residue(b) == [] then [] else [Residue(b)])
  }

  /** The events that are processed before one of them raises. */
  function ReadablePrefix(parse: Parser, events: seq<Bytes>): (r: seq<Bytes>) {
    if events == [] || !Readable(parse, events[0]) then []
    else [events[0]] + ReadablePrefix(parse, events[1..])
  }

  /** The events that are processed before the client has received `n` of them. */
  function Consumed(parse: Parser, requested: bool, events: seq<Bytes>, n: nat): (r: seq<Bytes>) {
    if events == [] || n == 0 then []
    else
      [events[0]]
      + Consumed(parse, requested, events[1..], if Keeps(parse, requested, events[0]) then n - 1 else n)
  }

  /** Everything the client must receive for the upstream bytes `b`. */
  function Delivery(parse: Parser, requested: bool, b: Bytes): (r: seq<Bytes>) {
    Kept(parse, requested, ReadablePrefix(parse, Events(b)))
  }

  predicate AllReadable(parse: Parser, events: seq<Bytes>) {
    forall i | 0 <= i < |events| :: Readable(parse, events[i])
  }

  lemma {:induction false} ReadablePrefixStops(parse: Parser, events: seq<Bytes>)
    ensures var r := ReadablePrefix(parse, events);
            && r <= events && AllReadable(parse, r)
            && (|r| < |events| ==> !Readable(parse, events[|r|]))
  {
    if events != [] && Readable(parse, events[0]) {
      ReadablePrefixStops(parse, events[1..]);
      assert events == [events[0]] + events[1..];
    }
  }

  lemma {:induction false} ReadablePrefixAppend(parse: Parser, xs: seq<Bytes>, ys: seq<Bytes>)
    requires AllReadable(parse, xs)
    ensures ReadablePrefix(parse, xs + ys) == xs + ReadablePrefix(parse, ys)
  {
    if xs == [] {
      assert xs + ys == ys;
    } else {
      assert (xs + ys)[1..] == xs[1..] + ys;
      ReadablePrefixAppend(parse, xs[1..], ys);
      Assoc([xs[0]], xs[1..], ReadablePrefix(parse, ys));
      assert xs == [xs[0]] + xs[1..];
    }
  }

  lemma {:induction false} ReadablePrefixGrows(parse: Parser, xs: seq<Bytes>, ys: seq<Bytes>)
    ensures ReadablePrefix(parse, xs) <= ReadablePrefix(parse, xs + ys)
  {
    if xs != [] {
      assert (xs + ys)[1..] == xs[1..] + ys;
      ReadablePrefixGrows(parse, xs[1..], ys);
    }
  }

  lemma {:induction false} EventsEndInLf(events: seq<Bytes>)
    requires forall k | 0 <= k < |events| :: IsEvent(events[k])
    ensures events == [] ==> Flatten(events) == []
    ensures events != [] ==> Flatten(events) != [] && Flatten(events)[|Flatten(events)| - 1] == LF
  {
    if events != [] {
      EventsEndInLf(events[1..]);
      assert BlankAt(events[0], |events[0]| - 2);
    }
  }

  /** A framed stretch is readable exactly when each of its events and its rest are. */
  lemma {:induction false} ReadableEvents(parse: Parser, events: seq<Bytes>, rest: Bytes)
    requires forall k | 0 <= k < |events| :: IsEvent(events[k])
    ensures Readable(parse, Flatten(events) + rest) <==> AllReadable(parse, events) && Readable(parse, rest)
  {
    if events == [] {
      assert Flatten(events) + rest == rest;
    } else {
      var tail := events[1..];
      ReadableEvents(parse, tail, rest);
      assert BlankAt(events[0], |events[0]| - 2);
      ReadableAppend(parse, events[0], Flatten(tail) + rest);
      Assoc(events[0], Flatten(tail), rest);
      hide Readable;
      assert forall i | 0 <= i < |tail| :: tail[i] == events[i + 1];
      assert forall i | 0 < i < |events| :: events[i] == tail[i - 1];
    }
  }

  lemma {:induction false} EventsOfStream(parse: Parser, b: Bytes)
    ensures Flatten(Events(b)) == b
    ensures forall i | 0 <= i < |Events(b)| :: Events(b)[i] != []
    ensures AllReadable(parse, Events(b)) <==> Readable(parse, b)
  {
    FramesFrame(b);
    EventsNotEmpty(Frames(b));
    ReadableEvents(parse, Frames(b), Residue(b));
    EmptyLineIsReadable(parse);
    hide Frames, Residue, Readable, IsEvent, Flatten;
    WithRest(parse, Frames(b), Residue(b));
  }

  lemma WithRest(parse: Parser, events: seq<Bytes>, rest: Bytes)
    requires forall i | 0 <= i < |events| :: events[i] != []
    requires Readable(parse, [])
    ensures var all := events + (if rest == [] then [] else [rest]);
            && Flatten(all) == Flatten(events) + rest
            && (forall i | 0 <= i < |all| :: all[i] != [])
            && (AllReadable(parse, all) <==> AllReadable(parse, events) && Readable(parse, rest))
  {
    hide Readable, Flatten;
    if rest == [] {
      assert events + [] == events && Flatten(events) + [] == Flatten(events);
    } else {
      var all := events + [rest];
      FlattenAppend(events, [rest]);
      FlattenOne(rest);
      assert forall i | 0 <= i < |events| :: all[i] == events[i];
      assert all[|events|] == rest;
    }
  }

  lemma EventsNotEmpty(events: seq<Bytes>)
    requires forall k | 0 <= k < |events| :: IsEvent(events[k])
    ensures forall k | 0 <= k < |events| :: events[k] != []
  {
  }

  lemma FlattenOne(e: Bytes)
    ensures Flatten([e]) == e
  {
    assert [e][1..] == [];
  }

  lemma PrefixOfFlatten(xs: seq<Bytes>, events: seq<Bytes>)
    requires xs <= events && forall i | 0 <= i < |events| :: events[i] != []
    ensures Flatten(xs) <= Flatten(events)
    ensures Flatten(xs) == Flatten(events) <==> xs == events
  {
    var rest := events[|xs|..];
    assert events == xs + rest;
    FlattenAppend(xs, rest);
    if rest != [] {
      assert rest[0] == events[|xs|];
      assert |Flatten(rest)| > 0;
    } else {
      assert xs == events;
    }
  }

  /** What is processed of a stream: a prefix of its events, all of them exactly when it is readable. */
  lemma ProcessedPart(parse: Parser, b: Bytes)
    ensures var events := ReadablePrefix(parse, Events(b));
            && Flatten(events) <= b
            && (Flatten(events) == b <==> Readable(parse, b))
  {
    EventsOfStream(parse, b);
    ReadablePrefixStops(parse, Events(b));
    PrefixOfFlatten(ReadablePrefix(parse, Events(b)), Events(b));
  }

  /** A client that asked for usage receives a prefix of the upstream bytes, and all of them unchanged
      exactly when no data line raises. */
  lemma RequestedMeansTransparent(parse: Parser, b: Bytes)
    ensures Flatten(Delivery(parse, true, b)) <= b
    ensures Flatten(Delivery(parse, true, b)) == b <==> Readable(parse, b)
  {
    ProcessedPart(parse, b);
    KeptAll(parse, ReadablePrefix(parse, Events(b)));
  }

  /** Which events reach the client: of a list of events that concatenates to the upstream bytes, up to the
      first event that raises, exactly those that carry no usage report without choices, or all of them for
      a client that asked for usage; in their order. */
  lemma DeliveryConserves(parse: Parser, requested: bool, b: Bytes) returns (events: seq<Bytes>, at: seq<nat>)
    ensures events <= Events(b)
    ensures Flatten(events) <= b && (Flatten(events) == b <==> Readable(parse, b))
    ensures Selects(events, Delivery(parse, requested, b), at)
    ensures forall i: nat | i < |events| ::
              i in at <==>
              requested || forall p | p in Payloads(parse, events[i]) :: !(p.usage.Some? && p.usage.value != map[] && p.choices == [])
    ensures Kept(parse, requested, events) == Delivery(parse, requested, b)
    ensures |Delivery(parse, requested, b)| == |events| <==> forall i | 0 <= i < |events| :: Keeps(parse, requested, events[i])
  {
    events := ReadablePrefix(parse, Events(b));
    ReadablePrefixStops(parse, Events(b));
    ProcessedPart(parse, b);
    KeptLength(parse, requested, events);
    at := KeptSelects(parse, requested, events);
    hide Payloads;
  }

  lemma {:induction false} KeptSelects(parse: Parser, requested: bool, events: seq<Bytes>) returns (at: seq<nat>)
    ensures Selects(events, Kept(parse, requested, events), at)
    ensures forall i: nat | i < |events| :: i in at <==> Keeps(parse, requested, events[i])
    decreases |events|
  {
    if events == [] {
      at := [];
    } else {
      var init, last := events[..|events| - 1], events[|events| - 1];
      at := KeptSelects(parse, requested, init);
      assert events == init + [last];
      KeptAppend(parse, requested, init, [last]);
      assert [last][1..] == [];
      SelectsSnoc(init, last, Kept(parse, requested, init), at);
      hide Keeps;
      if Keeps(parse, requested, last) {
        assert forall i :: i in at + [|init|] <==> i in at || i == |init|;
        at := at + [|init|];
      } else {
        assert Kept(parse, requested, init) + [] == Kept(parse, requested, init);
      }
    }
  }

  /** One event with one data line, to a client that did not ask for usage: hidden exactly when the
      payload reports usage and has no choices. */
  lemma UsageChunk(parse: Parser, d: Bytes, p: Payload)
    requires Trimmed(d) && d != DONE && LF !in d && parse(d) == Object(p)
    ensures var e := DATA_PREFIX + [32] + d + [LF, LF];
            Delivery(parse, false, e) == if p.usage.Some? && p.usage.value != map[] && p.choices == [] then [] else [e]
  {
    var line := DATA_PREFIX + [32] + d;
    var e := line + [LF, LF];
    OneDataLine(parse, d, p);
    BlankEnd(line);
    OneEvent(e);
    hide Payloads, Readable, Events, IsEvent;
    assert [e][1..] == [] && ReadablePrefix(parse, [e][1..]) == [] && Kept(parse, false, [e][1..]) == [];
    assert ReadablePrefix(parse, [e]) == [e];
    assert p in Payloads(parse, e);
    assert e == line + [LF, LF] && Keeps(parse, false, e) == !UsageOnly(p);
    assert Kept(parse, false, [e]) == if Keeps(parse, false, e) then [e] else [];
  }

  lemma OneDataLine(parse: Parser, d: Bytes, p: Payload)
    requires Trimmed(d) && d != DONE && LF !in d && parse(d) == Object(p)
    ensures var e := DATA_PREFIX + [32] + d + [LF, LF]; Readable(parse, e) && Payloads(parse, e) == [p]
  {
    var line := DATA_PREFIX + [32] + d;
    assert line == DATA_PREFIX + [32] + d + [];
    assert SplitsAs(line, [32], d, []);
    LineDataExactly(line, d);
    hide LineData, SplitsAs;
    assert LF !in line;
    LineWithoutLf(line);
    LinesOfOneEvent(line);
    OnePayload(parse, line, p);
    EmptyLineIsReadable(parse);
    hide Lines;
    var e := line + [LF, LF];
    assert forall i | 0 <= i < |Lines(e)| :: Lines(e)[i] == (if i == 0 then line else []);
  }

  lemma OnePayload(parse: Parser, line: Bytes, p: Payload)
    requires LinePayload(parse, line) == [p]
    ensures LinesPayloads(parse, [line] + [[], []]) == [p]
  {
    LinesPayloadsAppend(parse, [line], [[], []]);
    EmptyLineCarriesNothing(parse);
    var none: seq<Bytes> := [[]];
    assert [line][1..] == [] && none + none == [[], []];
    LinesPayloadsAppend(parse, none, none);
  }

  lemma BlankEnd(line: Bytes)
    requires LF !in line
    ensures IsEvent(line + [LF, LF])
  {
    var e := line + [LF, LF];
    assert BlankAt(e, |line|);
    forall i: nat | i < |line| ensures !BlankAt(e, i) {
      assert e[i] == line[i] && line[i] in line;
    }
  }

  lemma {:induction false} LineWithoutLf(line: Bytes)
    requires LF !in line
    ensures Lines(line) == [line]
  {
    if line != [] {
      assert line[0] in line;
      LineWithoutLf(line[1..]);
      assert line == [line[0]] + line[1..];
    }
  }

  lemma LinesOfOneEvent(line: Bytes)
    ensures Lines(line + [LF, LF]) == Lines(line) + [[], []]
  {
    LinesAfterLf(line, [LF]);
    assert line + [LF] + [LF] == line + [LF, LF];
    assert [LF][1..] == [] && Lines([]) == [[]];
    assert Lines([LF]) == [[]] + [[]];
  }

  lemma OneEvent(b: Bytes)
    requires IsEvent(b)
    ensures Events(b) == [b]
  {
    FramesFrame(b);
    FlattenOne(b);
    var none: Bytes := [];
    assert b + none == b;
    assert IsFraming([b], none, b);
    FramingUnique([b], none, Frames(b), Residue(b), b);
    var nothing: seq<Bytes> := [];
    assert [b] + nothing == [b];
  }

  lemma {:induction false} KeptLength(parse: Parser, requested: bool, events: seq<Bytes>)
    ensures |Kept(parse, requested, events)| <= |events|
    ensures |Kept(parse, requested, events)| == |events| <==> forall i | 0 <= i < |events| :: Keeps(parse, requested, events[i])
  {
    if events != [] {
      var tail := events[1..];
      KeptLength(parse, requested, tail);
      hide Keeps;
      assert forall i | 0 <= i < |tail| :: tail[i] == events[i + 1];
      assert forall i | 0 < i < |events| :: events[i] == tail[i - 1];
    }
  }

  /** The events of a prefix of the stream are the first events of the stream. */
  lemma {:induction false} FramesPrefix(a: Bytes, b: Bytes)
    ensures Frames(a) <= Frames(a + b)
  {
    var events, more := Frames(a), Frames(Residue(a) + b);
    var rest := Residue(Residue(a) + b);
    FramesFrame(a);
    FramesFrame(Residue(a) + b);
    FramesFrame(a + b);
    FramingExtends(events, Residue(a), a, more, rest, b);
    FramingUnique(events + more, rest, Frames(a + b), Residue(a + b), a + b);
  }

  lemma {:induction false} FramingExtends(events: seq<Bytes>, rest: Bytes, a: Bytes, more: seq<Bytes>, last: Bytes, b: Bytes)
    requires IsFraming(events, rest, a) && IsFraming(more, last, rest + b)
    ensures IsFraming(events + more, last, a + b)
  {
    FlattenAppend(events, more);
    Assoc(Flatten(events), Flatten(more), last);
    Assoc(Flatten(events), rest, b);
  }

  /** What was handed out before the stream broke is a prefix of what the whole stream delivers. */
  lemma BrokenIsPrefix(parse: Parser, requested: bool, a: Bytes, b: Bytes)
    ensures Kept(parse, requested, ReadablePrefix(parse, Frames(a))) <= Delivery(parse, requested, a + b)
  {
    FramesPrefix(a, b);
    var more := Events(a + b)[|Frames(a)|..];
    assert Events(a + b) == Frames(a) + more;
    ReadablePrefixGrows(parse, Frames(a), more);
    KeptPrefix(parse, requested, ReadablePrefix(parse, Frames(a)), ReadablePrefix(parse, Events(a + b)));
  }

  lemma KeptPrefix(parse: Parser, requested: bool, xs: seq<Bytes>, ys: seq<Bytes>)
    requires xs <= ys
    ensures Kept(parse, requested, xs) <= Kept(parse, requested, ys)
  {
    assert ys == xs + ys[|xs|..];
    KeptAppend(parse, requested, xs, ys[|xs|..]);
  }

  /** A stream that never contains LF LF (one framed with CR LF CR LF, say) is a single event:
      it reaches the client whole at the end, or not at all. */
  lemma UnframedIsAllOrNothing(parse: Parser, requested: bool, b: Bytes)
    requires NoBlankLine(b) && b != []
    ensures Delivery(parse, requested, b) == if Readable(parse, b) && Keeps(parse, requested, b) then [b] else []
  {
    FramesFrame(b);
    FramingUnique([], b, Frames(b), Residue(b), b);
    assert Events(b) == [b] && [b][1..] == [];
    assert ReadablePrefix(parse, [b][1..]) == [] && Kept(parse, requested, [b][1..]) == [];
    assert ReadablePrefix(parse, [b]) == if Readable(parse, b) then [b] else [];
  }

  // ---- closing at a yield ------------------------------------------------

  /** What was processed when the client has just received its n-th event. */
  lemma {:induction false} ConsumedExactly(parse: Parser, requested: bool, xs: seq<Bytes>, ys: seq<Bytes>)
    requires xs != [] && Keeps(parse, requested, xs[|xs| - 1])
    ensures Consumed(parse, requested, xs + ys, |Kept(parse, requested, xs)|) == xs
  {
    hide *;
    var e, tail := xs[0], xs[1..];
    assert xs == [e] + tail && xs + ys == [e] + (tail + ys);
    LastIsKept(parse, requested, xs);
    KeptFirst(parse, requested, e, tail);
    ConsumedFirst(parse, requested, e, tail + ys, |Kept(parse, requested, xs)|);
    if tail == [] {
      NoneKept(parse, requested);
      NoneConsumed(parse, requested, tail + ys);
    } else {
      ConsumedExactly(parse, requested, tail, ys);
    }
  }

  lemma KeptFirst(parse: Parser, requested: bool, e: Bytes, rest: seq<Bytes>)
    ensures |Kept(parse, requested, [e] + rest)|
            == (if Keeps(parse, requested, e) then 1 else 0) + |Kept(parse, requested, rest)|
  {
    assert ([e] + rest)[1..] == rest;
  }

  lemma NoneKept(parse: Parser, requested: bool)
    ensures Kept(parse, requested, []) == []
  {
  }

  lemma NoneConsumed(parse: Parser, requested: bool, events: seq<Bytes>)
    ensures Consumed(parse, requested, events, 0) == []
  {
  }

  lemma ConsumedFirst(parse: Parser, requested: bool, e: Bytes, rest: seq<Bytes>, n: nat)
    requires n > 0
    ensures Consumed(parse, requested, [e] + rest, n)
            == [e] + Consumed(parse, requested, rest, if Keeps(parse, requested, e) then n - 1 else n)
  {
    assert ([e] + rest)[1..] == rest;
  }

  lemma {:induction false} LastIsKept(parse: Parser, requested: bool, xs: seq<Bytes>)
    requires xs != [] && Keeps(parse, requested, xs[|xs| - 1])
    ensures |Kept(parse, requested, xs)| > 0
  {
    hide Keeps;
    if |xs| > 1 {
      LastIsKept(parse, requested, xs[1..]);
    }
  }
}
