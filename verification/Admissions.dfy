/** The first segment of a proxied request: its headers and path are resolved into an attribution, and
    what comes of that answers the request that has just arrived. */
module Admissions {
  import opened Common
  import opened Text
  import opened TagJson
  import opened Tags
  import opened TagToken
  import opened ScopeRegistry
  import opened AttributionLaw
  import opened ModelCalls
  import opened CallRecords

  predicate Names(tags: TagMap) {
    System in tags || Operation in tags || SessionId in tags || RunId in tags
  }

  const META: Text := [109, 101, 116, 97]

  /** The strings of an attribution that are in the record. Listing models has an operation of its own
      when it is given none. */
  function RecordedTexts(a: Attributed, endpoint: Endpoint): (r: set<Text>) {
    (set f | f in a.tags && a.tags[f].Str? :: a.tags[f].s)
    + (set id | id in a.scopeIds)
    + (if endpoint.Models? && Operation !in a.tags then {META} else {})
  }

  /** Only a TagError is handled. */
  function Answer(r: Result<Attributed, TagError>, endpoint: Endpoint): (input: Input) {
    match r
    case Success(a) => Admit(Resolved(Names(a.tags), RecordedTexts(a, endpoint)))
    case Failure(TagError) => Admit(Malformed)
    case Failure(OverflowError) => AdmitRaised
  }

  /** The static token carries an infinite seed ahead of any other fault, or it is fine and the compact
      token of the headers does. */
  ghost predicate CarriesOverflow(host: Host, h: Headers, pathToken: Option<Text>) {
    || (StaticToken(h, pathToken).Some? && Overflows(host, StaticToken(h, pathToken).value.0))
    || (StaticTags(host, h, pathToken).Success? && Given(h.compact) && Overflows(host, h.compact.value))
  }

  /** A segment that ends the request leaves exactly one MODEL_CALL, unless the record cannot be encoded
      or a token of the request overflows; in that case, and in no other, the exception escapes. */
  method Attribute(record: CallRecord, requireAttribution: bool, host: Host, h: Headers, pathToken: Option<Text>,
                   registry: Registry, allowed: set<Text>)
    returns (r: Result<Attributed, TagError>)
    requires record.Snapshot() == Task(record.endpoint, Arrived, FRESH_CALL) && NormalTable(registry.scopes)
    modifies record, record.log
    ensures TaskOk(record.Snapshot()) && !record.phase.Arrived?
    ensures CarriesOverflow(host, h, pathToken) <==> record.phase == Finished(AdmitRaised, None)
    ensures record.log.entries == old(record.log.entries)
              + if record.phase.Finished? && !CarriesOverflow(host, h, pathToken) && CanBeWritten(record.CallValue())
                then [ModelCall(record.id, record.CallValue())] else []
    ensures StaticTags(host, h, pathToken) == Failure(TagError) ==>
              record.errorType == Some(InvalidAttribution) && record.httpStatus == Some(400) && record.phase.Finished?
    ensures r.Success? ==>
              && HeaderTags(host, h).Success? && StaticTags(host, h, pathToken).Success?
              && var header, fixed := HeaderTags(host, h).value, StaticTags(host, h, pathToken).value;
                 Lawful(r.value, header, Merge(Active(registry.scopes, LookupId(header, fixed))), fixed, StaticToken(h, pathToken))
    ensures r.Success? ==>
              (record.errorType == Some(UnattributedRequest) <==>
               && requireAttribution && !record.endpoint.Models?
               && System !in r.value.tags && Operation !in r.value.tags && SessionId !in r.value.tags && RunId !in r.value.tags)
    ensures r.Success? && record.phase.Finished? ==>
              (CanBeWritten(record.CallValue()) <==>
               (forall f | f in r.value.tags && r.value.tags[f].Str? :: Encodable(r.value.tags[f].s))
               && forall id | id in r.value.scopeIds :: Encodable(id))
    ensures registry.scopes == old(registry.scopes)
  {
    hide StaticTags, HeaderTags, Overflows, NormalTable, TokenFromApiKey, Lawful, SystemAllowed, CanBeWritten, Merge, FinalValue;
    OverflowExactly(host, h, pathToken);
    r := ResolveAttribution(host, h, pathToken, registry, allowed);
    ghost var t := record.Snapshot();
    var taken := record.Resume(requireAttribution, Answer(r, record.endpoint));
    StepKeepsTaskOk(requireAttribution, t, Answer(r, record.endpoint));
    if r.Success? {
      AdmittedRecord(requireAttribution, t, r.value);
    }
  }

  /** What the record of a resolved request says that ends here. */
  lemma AdmittedRecord(requireAttribution: bool, t: Task, a: Attributed)
    requires t.phase.Arrived? && TaskOk(t) && t.call.texts == NO_TEXTS
    ensures var u := AfterAdmit(requireAttribution, t, Answer(Success(a), t.endpoint).attribution);
            && (u.call.errorType == Some(UnattributedRequest) <==>
                && requireAttribution && !t.endpoint.Models?
                && System !in a.tags && Operation !in a.tags && SessionId !in a.tags && RunId !in a.tags)
            && (u.phase.Finished? ==>
                  (CanBeWritten(u.call) <==>
                   (forall f | f in a.tags && a.tags[f].Str? :: Encodable(a.tags[f].s)) && forall id | id in a.scopeIds :: Encodable(id)))
  {
    hide Encodable;
    var texts := RecordedTexts(a, t.endpoint);
    assert forall f | f in a.tags && a.tags[f].Str? :: a.tags[f].s in texts;
    assert forall id | id in a.scopeIds :: id in texts;
    assert forall s | s in texts :: s == META || s in a.scopeIds || exists f | f in a.tags :: a.tags[f].Str? && a.tags[f].s == s;
    MetaIsEncodable();
  }

  lemma MetaIsEncodable()
    ensures Encodable(META)
  {
  }

  /** A token that overflows does so in the path, in the API key and in the compact header. */
  lemma OverflowEscapes(host: Host, h: Headers, pathToken: Option<Text>, bearer: Text, token: Text)
    requires Overflows(host, token) && token != [] && NoSpace(token) && IsBearer(bearer)
    ensures CarriesOverflow(host, h, Some(token))
    ensures !Given(pathToken) && h.authorization == Some(bearer + [32] + (KEY_PREFIX + token)) ==>
              CarriesOverflow(host, h, pathToken)
    ensures StaticTags(host, h, pathToken).Success? && h.compact == Some(token) ==> CarriesOverflow(host, h, pathToken)
  {
    TokenSurvivesKey(bearer, token);
    hide Overflows, TokenFromApiKey, IsBearer, NoSpace, StaticTags;
  }

  /** The token of {"seed":Infinity} is one of them. */
  lemma InfiniteSeedEscapes(host: Host, h: Headers)
    ensures var token := InfinityToken(); Overflows(host, token) && token != [] && NoSpace(token)
    ensures CarriesOverflow(host, h, Some(InfinityToken()))
  {
    InfinityOverflows(host);
    hide *;
    DecodeMayOverflow(host, InfinityToken());
    PathTokenEscapes(host, h, InfinityToken());
  }

  lemma PathTokenEscapes(host: Host, h: Headers, token: Text)
    requires Overflows(host, token) && token != []
    ensures CarriesOverflow(host, h, Some(token))
  {
    hide Overflows, TokenFromApiKey;
  }
}
