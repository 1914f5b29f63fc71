/** Three sources of tags, header over scope over static token, combined into one attribution. */
module AttributionLaw {
  import opened Common
  import opened Text
  import opened JsonBytes
  import opened TagJson
  import opened Base64Url
  import opened Tags
  import opened TagToken
  import opened ScopeRegistry

  datatype Source = PathToken | ApiKeyToken | FromScope | AmbiguousScopes | FromHeader | DerivedFromSystem

  /** The request headers that matter: authorization, the compact tag token, one per field. */
  datatype Headers = Headers(authorization: Option<Text>, compact: Option<Text>, single: map<Field, Text>)

  datatype Attributed = Attributed(
    tags: TagMap,
    sources: map<Field, Source>,
    scopeIds: seq<Text>,
    state: ScopeState,
    ambiguous: seq<Field>,
    staticTokenPresent: bool)

  predicate Given(t: Option<Text>) {
    t.Some? && t.value != []
  }

  /** The static token and where it comes from: the URL path wins over the API key. */
  function StaticToken(h: Headers, pathToken: Option<Text>): (r: Option<(Text, Source)>) {
    var key := TokenFromApiKey(h.authorization);
    if Given(pathToken) then Some((pathToken.value, PathToken))
    else if Given(key) then Some((key.value, ApiKeyToken))
    else None
  }

  function StaticTags(host: Host, h: Headers, pathToken: Option<Text>): (r: Result<TagMap, TagError>) {
    match StaticToken(h, pathToken)
    case None => Success(map[])
    case Some(token) => Decode(host, token.0)
  }

  function CompactTags(host: Host, h: Headers): (r: Result<TagMap, TagError>) {
    if Given(h.compact) then Decode(host, h.compact.value) else Success(map[])
  }

  function SingleTags(h: Headers): (r: TagMap) {
    map f | f in h.single && h.single[f] != [] :: Str(h.single[f])
  }

  function HeaderTags(host: Host, h: Headers): (r: Result<TagMap, TagError>) {
    match CompactTags(host, h)
    case Failure(e) => Failure(e)
    case Success(compact) =>
      (match Normalize(AsRaw(compact + SingleTags(h)), None) case None => Failure(TagError) case Some(t) => Success(t))
  }

  function TextAt(t: TagMap, f: Field): (r: Option<Text>) {
    if f in t && t[f].Str? && t[f].s != [] then Some(t[f].s) else None
  }

  function Or(a: Option<Text>, b: Option<Text>): (r: Option<Text>) {
    if a.Some? then a else b
  }

  /** Whose scopes apply: the client id of header or token, else the system of header or token. */
  function LookupId(header: TagMap, fixed: TagMap): (r: Option<Text>) {
    Or(TextAt(header, ClientId), Or(TextAt(fixed, ClientId), Or(TextAt(header, System), TextAt(fixed, System))))
  }

  // ---- the law, field by field -------------------------------------------

  /** Header, else nothing if the scopes are ambiguous, else scope, else static token. */
  function Chosen(header: TagMap, m: Merged, fixed: TagMap, f: Field): (r: Option<Scalar>) {
    if f in header then Some(header[f])
    else if f in m.ambiguous then None
    else if f in m.tags then Some(m.tags[f])
    else if f in fixed then Some(fixed[f])
    else None
  }

  function ChosenSource(header: TagMap, m: Merged, fixed: TagMap, from: Source, f: Field): (r: Option<Source>) {
    if f in header then Some(FromHeader)
    else if f in m.ambiguous then Some(AmbiguousScopes)
    else if f in m.tags then Some(FromScope)
    else if f in fixed then Some(from)
    else None
  }

  /** The client id is filled in from the lookup when no source decides it. */
  predicate Derives(header: TagMap, m: Merged, fixed: TagMap, f: Field) {
    f.ClientId? && Chosen(header, m, fixed, f).None? && LookupId(header, fixed).Some?
  }

  function FinalValue(header: TagMap, m: Merged, fixed: TagMap, f: Field): (r: Option<Scalar>) {
    if Derives(header, m, fixed, f) then Some(Str(LookupId(header, fixed).value))
    else Chosen(header, m, fixed, f)
  }

  function FinalSource(header: TagMap, m: Merged, fixed: TagMap, from: Source, f: Field): (r: Option<Source>) {
    if Derives(header, m, fixed, f) then Some(DerivedFromSystem)
    else ChosenSource(header, m, fixed, from, f)
  }

  /** What an attribution must be, given the decoded inputs. */
  ghost predicate Lawful(a: Attributed, header: TagMap, m: Merged, fixed: TagMap, token: Option<(Text, Source)>) {
    && (forall f :: f in a.tags <==> FinalValue(header, m, fixed, f).Some?)
    && (forall f | f in a.tags :: Some(a.tags[f]) == FinalValue(header, m, fixed, f))
    && (forall f :: f in a.sources <==> FinalSource(header, m, fixed, SourceOf(token), f).Some?)
    && (forall f | f in a.sources :: Some(a.sources[f]) == FinalSource(header, m, fixed, SourceOf(token), f))
    && a.scopeIds == m.ids && a.state == m.state && a.ambiguous == m.ambiguous
    && a.staticTokenPresent == token.Some?
  }

  function SourceOf(token: Option<(Text, Source)>): (r: Source) {
    if token.Some? then token.value.1 else PathToken
  }

  /** The law determines the attribution completely. */
  lemma LawDeterminesAttribution(a: Attributed, b: Attributed, header: TagMap, m: Merged, fixed: TagMap, token: Option<(Text, Source)>)
    requires Lawful(a, header, m, fixed, token) && Lawful(b, header, m, fixed, token)
    ensures a == b
  {
    hide FinalValue, FinalSource;
    assert a.tags == b.tags && a.sources == b.sources;
  }

  method ResolveAttribution(host: Host, h: Headers, pathToken: Option<Text>, registry: Registry, allowed: set<Text>)
    returns (r: Result<Attributed, TagError>)
    requires NormalTable(registry.scopes)
    ensures StaticTags(host, h, pathToken).Failure? ==> r == Failure(StaticTags(host, h, pathToken).error)
    ensures StaticTags(host, h, pathToken).Success? && HeaderTags(host, h).Failure? ==> r == Failure(HeaderTags(host, h).error)
    ensures StaticTags(host, h, pathToken).Success? && HeaderTags(host, h).Success? ==>
              var header, fixed := HeaderTags(host, h).value, StaticTags(host, h, pathToken).value;
              var m := Merge(Active(registry.scopes, LookupId(header, fixed)));
              match r
              case Success(a) => Lawful(a, header, m, fixed, StaticToken(h, pathToken)) && SystemAllowed(a.tags, Some(allowed))
              case Failure(e) => e == TagError
                                 && FinalValue(header, m, fixed, System).Some?
                                 && FinalValue(header, m, fixed, System).value.Str?
                                 && FinalValue(header, m, fixed, System).value.s !in allowed
  {
    hide Decode, Normalize, Merge, Active, LookupId, FinalValue, FinalSource, NormalTable, IsNormal, TokenFromApiKey;
    var token := StaticToken(h, pathToken);
    var fixed: TagMap := map[];
    if token.Some? {
      match Decode(host, token.value.0) {
        case Failure(e) => return Failure(e);
        case Success(t) => fixed := t;
      }
    }
    var decodedHeader := HeaderTags(host, h);
    if decodedHeader.Failure? {
      return Failure(decodedHeader.error);
    }
    var header := decodedHeader.value;
    var clientId := LookupId(header, fixed);
    var m := registry.Resolve(clientId);
    AmbiguousUnmerged(Active(registry.scopes, clientId));
    var a := Combine(header, m, fixed, token);

    DecodedIsNormal(host, h, pathToken);
    NormalizedHeaderIsNormal(host, h);
    MergedIsNormal(registry.scopes, clientId);
    LawfulIsNormal(a, header, m, fixed, token);
    r := Validated(a, allowed);
    assert System in a.tags ==> Some(a.tags[System]) == FinalValue(header, m, fixed, System);
  }

  /** The final validation: it rejects a system that is not allowed, and changes nothing otherwise. */
  method Validated(a: Attributed, allowed: set<Text>) returns (r: Result<Attributed, TagError>)
    requires IsNormal(a.tags)
    ensures SystemAllowed(a.tags, Some(allowed)) ==> r == Success(a)
    ensures !SystemAllowed(a.tags, Some(allowed)) ==> r == Failure(TagError)
  {
    NormalizeSettles(a.tags, Some(allowed));
    match Normalize(AsRaw(a.tags), Some(allowed)) {
      case None => r := Failure(TagError);
      case Some(final) => r := Success(a.(tags := final));
    }
  }

  method Combine(header: TagMap, m: Merged, fixed: TagMap, token: Option<(Text, Source)>) returns (a: Attributed)
    requires forall f :: !(f in m.tags && f in m.ambiguous)
    ensures Lawful(a, header, m, fixed, token)
  {
    hide Chosen, ChosenSource, LookupId, SourceOf;
    var tags, sources := Layered(header, m, fixed, SourceOf(token));
    var clientId := LookupId(header, fixed);
    if clientId.Some? && ClientId !in tags {
      tags := tags[ClientId := Str(clientId.value)];
      sources := sources[ClientId := DerivedFromSystem];
    }
    a := Attributed(tags, sources, m.ids, m.state, m.ambiguous, token.Some?);
  }

  method Layered(header: TagMap, m: Merged, fixed: TagMap, from: Source)
    returns (tags: TagMap, sources: map<Field, Source>)
    requires forall f :: !(f in m.tags && f in m.ambiguous)
    ensures forall f :: f in tags <==> Chosen(header, m, fixed, f).Some?
    ensures forall f | f in tags :: Some(tags[f]) == Chosen(header, m, fixed, f)
    ensures forall f :: f in sources <==> ChosenSource(header, m, fixed, from, f).Some?
    ensures forall f | f in sources :: Some(sources[f]) == ChosenSource(header, m, fixed, from, f)
  {
    hide *;
    tags, sources := Overlay(map[], map[], fixed, from);
    tags, sources := Overlay(tags, sources, m.tags, FromScope);
    tags, sources := Drop(tags, sources, m.ambiguous);
    tags, sources := Overlay(tags, sources, header, FromHeader);
    forall f
      ensures f in tags <==> Chosen(header, m, fixed, f).Some?
      ensures f in tags ==> Some(tags[f]) == Chosen(header, m, fixed, f)
      ensures f in sources <==> ChosenSource(header, m, fixed, from, f).Some?
      ensures f in sources ==> Some(sources[f]) == ChosenSource(header, m, fixed, from, f)
    {
      LayeredValue(header, m, fixed, f);
      LayeredSource(header, m, fixed, from, f);
    }
  }

  function Over<V>(below: map<Field, V>, layer: map<Field, V>): (r: map<Field, V>) {
    below + layer
  }

  function Labelled(layer: TagMap, source: Source): (r: map<Field, Source>) {
    map f | f in layer :: source
  }

  function AmbiguousLabels(fields: seq<Field>): (r: map<Field, Source>) {
    map f | f in fields :: AmbiguousScopes
  }

  function Minus(tags: TagMap, fields: seq<Field>): (r: TagMap) {
    map f | f in tags && f !in fields :: tags[f]
  }

  lemma LayeredValue(header: TagMap, m: Merged, fixed: TagMap, f: Field)
    requires !(f in m.tags && f in m.ambiguous)
    ensures var tags := Over(Minus(Over(Over(map[], fixed), m.tags), m.ambiguous), header);
            && (f in tags <==> Chosen(header, m, fixed, f).Some?)
            && (f in tags ==> Some(tags[f]) == Chosen(header, m, fixed, f))
  {
    var t1 := Over(map[], fixed);
    var t2 := Over(t1, m.tags);
    var t3 := Minus(t2, m.ambiguous);
    if f in header {
    } else if f in m.ambiguous {
      assert f !in t3;
    } else if f in m.tags {
      assert f in t2 && t3[f] == t2[f] == m.tags[f];
    } else {
      assert f in t3 <==> f in t2;
      assert f in t2 <==> f in fixed;
    }
  }

  lemma LayeredSource(header: TagMap, m: Merged, fixed: TagMap, from: Source, f: Field)
    requires !(f in m.tags && f in m.ambiguous)
    ensures var sources := Over(Over(Over(Over(map[], Labelled(fixed, from)), Labelled(m.tags, FromScope)),
                                     AmbiguousLabels(m.ambiguous)), Labelled(header, FromHeader));
            && (f in sources <==> ChosenSource(header, m, fixed, from, f).Some?)
            && (f in sources ==> Some(sources[f]) == ChosenSource(header, m, fixed, from, f))
  {
    var s1 := Over(map[], Labelled(fixed, from));
    var s2 := Over(s1, Labelled(m.tags, FromScope));
    var s3 := Over(s2, AmbiguousLabels(m.ambiguous));
    assert f in Labelled(header, FromHeader) <==> f in header;
    assert f in AmbiguousLabels(m.ambiguous) <==> f in m.ambiguous;
    assert f in Labelled(m.tags, FromScope) <==> f in m.tags;
    assert f in Labelled(fixed, from) <==> f in fixed;
  }

  /** `for k, v in layer.items(): tags[k] = v; sources[k] = source`. */
  method Overlay(tags: TagMap, sources: map<Field, Source>, layer: TagMap, source: Source)
    returns (tags': TagMap, sources': map<Field, Source>)
    ensures tags' == Over(tags, layer) && sources' == Over(sources, Labelled(layer, source))
  {
    tags', sources' := tags, sources;
    AllFieldsListed();
    var i := 0;
    while i < |FIELDS|
      invariant 0 <= i <= |FIELDS|
      invariant tags' == Over(tags, Within(layer, FIELDS[..i]))
      invariant sources' == Over(sources, Labelled(Within(layer, FIELDS[..i]), source))
    {
      var k := FIELDS[i];
      assert FIELDS[..i + 1] == FIELDS[..i] + [k];
      WithinMore(tags, sources, layer, source, FIELDS[..i], k);
      if k in layer {
        tags' := tags'[k := layer[k]];
        sources' := sources'[k := source];
      }
      i := i + 1;
    }
    assert FIELDS[..i] == FIELDS;
    assert Within(layer, FIELDS) == layer;
  }

  function Within(layer: TagMap, fields: seq<Field>): (r: TagMap) {
    map f | f in layer && f in fields :: layer[f]
  }

  lemma WithinMore(tags: TagMap, sources: map<Field, Source>, layer: TagMap, source: Source, fields: seq<Field>, k: Field)
    ensures Over(tags, Within(layer, fields + [k]))
            == if k in layer then Over(tags, Within(layer, fields))[k := layer[k]] else Over(tags, Within(layer, fields))
    ensures Over(sources, Labelled(Within(layer, fields + [k]), source))
            == if k in layer then Over(sources, Labelled(Within(layer, fields), source))[k := source]
               else Over(sources, Labelled(Within(layer, fields), source))
  {
    WithinStep(layer, fields, k);
    var less := Within(layer, fields);
    if k in layer {
      OverMore(tags, less, k, layer[k]);
      LabelledMore(less, source, k, layer[k]);
      OverMore(sources, Labelled(less, source), k, source);
    }
  }

  lemma OverMore<V>(below: map<Field, V>, layer: map<Field, V>, k: Field, v: V)
    ensures Over(below, layer[k := v]) == Over(below, layer)[k := v]
  {
    assert below + layer[k := v] == (below + layer)[k := v];
  }

  lemma LabelledMore(layer: TagMap, source: Source, k: Field, v: Scalar)
    ensures Labelled(layer[k := v], source) == Labelled(layer, source)[k := source]
  {
  }

  lemma MinusMore(tags: TagMap, fields: seq<Field>, k: Field)
    ensures Minus(tags, fields + [k]) == Minus(tags, fields) - {k}
    ensures AmbiguousLabels(fields + [k]) == AmbiguousLabels(fields)[k := AmbiguousScopes]
  {
    assert forall f :: f in fields + [k] <==> f in fields || f == k;
  }

  lemma WithinStep(layer: TagMap, fields: seq<Field>, k: Field)
    ensures Within(layer, fields + [k])
            == if k in layer then Within(layer, fields)[k := layer[k]] else Within(layer, fields)
  {
  }

  /** `for k in ambiguous: tags.pop(k, None); sources[k] = "ambiguous"`. */
  method Drop(tags: TagMap, sources: map<Field, Source>, ambiguous: seq<Field>)
    returns (tags': TagMap, sources': map<Field, Source>)
    ensures tags' == Minus(tags, ambiguous) && sources' == Over(sources, AmbiguousLabels(ambiguous))
  {
    hide Minus, Over, AmbiguousLabels;
    tags', sources' := tags, sources;
    NothingDropped(tags, sources);
    var i := 0;
    while i < |ambiguous|
      invariant 0 <= i <= |ambiguous|
      invariant tags' == Minus(tags, ambiguous[..i])
      invariant sources' == Over(sources, AmbiguousLabels(ambiguous[..i]))
    {
      assert ambiguous[..i + 1] == ambiguous[..i] + [ambiguous[i]];
      MinusMore(tags, ambiguous[..i], ambiguous[i]);
      OverMore(sources, AmbiguousLabels(ambiguous[..i]), ambiguous[i], AmbiguousScopes);
      tags' := tags' - {ambiguous[i]};
      sources' := sources'[ambiguous[i] := AmbiguousScopes];
      i := i + 1;
    }
    assert ambiguous[..i] == ambiguous;
  }

  lemma NothingDropped(tags: TagMap, sources: map<Field, Source>)
    ensures Minus(tags, []) == tags && Over(sources, AmbiguousLabels([])) == sources
  {
  }

  lemma DecodedIsNormal(host: Host, h: Headers, pathToken: Option<Text>)
    requires StaticTags(host, h, pathToken).Success?
    ensures IsNormal(StaticTags(host, h, pathToken).value)
  {
    match StaticToken(h, pathToken)
    case None =>
    case Some(token) => DecodeGivesNormal(host, token.0);
  }

  lemma DecodeGivesNormal(host: Host, token: Text)
    requires Decode(host, token).Success?
    ensures IsNormal(Decode(host, token).value)
  {
    hide ReadObject, Decoded, DocumentText, Normalized, Normalize, Object, IsNormal;
    var ms := ReadObject(host, DocumentText(Decoded(token).value).value).value;
    EntriesOfMembers(ms);
    NormalizedExactly(Entries(ms), None);
    NormalizeGivesNormal(Object(Entries(ms)), None);
  }

  lemma NormalizedHeaderIsNormal(host: Host, h: Headers)
    requires HeaderTags(host, h).Success?
    ensures IsNormal(HeaderTags(host, h).value)
  {
    NormalizeGivesNormal(AsRaw(CompactTags(host, h).value + SingleTags(h)), None);
  }

  lemma MergedIsNormal(t: Table, client: Option<Text>)
    requires NormalTable(t)
    ensures IsNormal(Merge(Active(t, client)).tags)
  {
    MergeStaysNormal(Active(t, client));
  }

  lemma AmbiguousUnmerged(scopes: seq<Scope>)
    ensures forall f :: !(f in Merge(scopes).tags && f in Merge(scopes).ambiguous)
  {
    forall f ensures !(f in Merge(scopes).tags && f in Merge(scopes).ambiguous) {
      MergeFields(scopes, f);
    }
  }

  lemma LawfulIsNormal(a: Attributed, header: TagMap, m: Merged, fixed: TagMap, token: Option<(Text, Source)>)
    requires Lawful(a, header, m, fixed, token)
    requires IsNormal(header) && IsNormal(m.tags) && IsNormal(fixed)
    ensures IsNormal(a.tags)
  {
    forall f | f in a.tags ensures IsNormalValue(f, a.tags[f]) {
      assert FinalValue(header, m, fixed, f) == Some(a.tags[f]);
    }
  }

  // ---- consequences ------------------------------------------------------

  /** `a` is the attribution of a request with these headers and this path token, after the run `ops`. */
  ghost predicate AttributionOf(a: Attributed, host: Host, h: Headers, pathToken: Option<Text>, ops: seq<Op>) {
    && HeaderTags(host, h).Success? && StaticTags(host, h, pathToken).Success?
    && (var header, fixed := HeaderTags(host, h).value, StaticTags(host, h, pathToken).value;
        Lawful(a, header, Merge(Active(RunOps(ops), LookupId(header, fixed))), fixed, StaticToken(h, pathToken)))
  }

  /** A header of its own, if not empty, gives the field its value, a seed being the integer it denotes;
      any other field is the one the compact token carries. Headers are accepted exactly when that token is
      and each of them denotes a value of its field. */
  lemma HeaderTagsExactly(host: Host, h: Headers, f: Field)
    ensures HeaderTags(host, h).Success? <==>
              && (Given(h.compact) ==> Decode(host, h.compact.value).Success?)
              && (forall g | g in h.single && h.single[g] != [] :: HeaderValue(g, h.single[g]).Some?)
    ensures HeaderTags(host, h).Success? ==>
              var header := HeaderTags(host, h).value;
              if f in h.single && h.single[f] != [] then f in header && Some(header[f]) == HeaderValue(f, h.single[f])
              else
                && (f in header <==> Given(h.compact) && f in Decode(host, h.compact.value).value)
                && (f in header ==> header[f] == Decode(host, h.compact.value).value[f])
  {
    if CompactTags(host, h).Success? {
      var compact, own := CompactTags(host, h).value, SingleTags(h);
      CompactIsNormal(host, h);
      hide Decode, Normalize, IsNormal, SingleTags, HeaderValue, AsRaw;
      AcceptsOverlaid(h, compact);
      if HeaderTags(host, h).Success? {
        KeptOverlaid(h, compact, f);
      }
    }
  }

  /** What the text of a header means for its field. */
  function HeaderValue(f: Field, text: Text): (v: Option<Scalar>) {
    if f.Seed? then (match ParseInt(text) case None => None case Some(n) => Some(Num(n)))
    else if |text| > 256 || (f.Operation? && text !in Operations()) then None
    else Some(Str(text))
  }

  lemma CompactIsNormal(host: Host, h: Headers)
    requires CompactTags(host, h).Success?
    ensures IsNormal(CompactTags(host, h).value)
  {
    if Given(h.compact) {
      DecodeGivesNormal(host, h.compact.value);
    }
  }

  lemma HeaderValueExactly(f: Field, text: Text)
    requires text != []
    ensures NormalValue(f, Plain(Str(text)), None)
            == if HeaderValue(f, text).Some? then Success(Some(HeaderValue(f, text).value)) else Failure(TagError)
  {
    EntryExactly(f, Plain(Str(text)), None);
    hide NormalValue, ParseInt, Operations;
  }

  lemma OverlaidValue(h: Headers, compact: TagMap, f: Field)
    requires IsNormal(compact) && f in compact + SingleTags(h)
    ensures NormalValue(f, Plain((compact + SingleTags(h))[f]), None)
            == if f in h.single && h.single[f] != []
               then if HeaderValue(f, h.single[f]).Some? then Success(Some(HeaderValue(f, h.single[f]).value)) else Failure(TagError)
               else Success(Some(compact[f]))
  {
    if f in h.single && h.single[f] != [] {
      HeaderValueExactly(f, h.single[f]);
    } else {
      SettledValue(compact, f, None);
    }
    hide NormalValue, HeaderValue;
  }

  lemma AcceptsOverlaid(h: Headers, compact: TagMap)
    requires IsNormal(compact)
    ensures Normalize(AsRaw(compact + SingleTags(h)), None).Some?
            <==> forall g | g in h.single && h.single[g] != [] :: HeaderValue(g, h.single[g]).Some?
  {
    var all := compact + SingleTags(h);
    AcceptsFieldwise(all);
    hide NormalValue, HeaderValue, IsNormal, Normalize, AsRaw;
    forall g | g in all ensures NormalValue(g, Plain(all[g]), None).Success?
                                <==> (g in h.single && h.single[g] != [] ==> HeaderValue(g, h.single[g]).Some?) {
      OverlaidValue(h, compact, g);
    }
    assert forall g | g in h.single && h.single[g] != [] :: g in all;
  }

  /** A map of tags is accepted field by field. */
  lemma AcceptsFieldwise(all: TagMap)
    ensures Normalize(AsRaw(all), None).Some? <==> forall g | g in all :: NormalValue(g, Plain(all[g]), None).Success?
  {
    var raw := AsRaw(all);
    hide NormalValue, FieldNamed, Name;
    forall g | g in all ensures FieldNamed(Name(g)) == Some(g) {
      NamesDiffer(g, g);
    }
    assert forall g | g in all :: Name(g) in raw && raw[Name(g)] == Plain(all[g]);
    assert forall k | k in raw :: FieldNamed(k).Some? && FieldNamed(k).value in all && raw[k] == Plain(all[FieldNamed(k).value]);
    hide AsRaw, KeptTags;
  }

  lemma KeptOverlaid(h: Headers, compact: TagMap, f: Field)
    requires IsNormal(compact) && Normalize(AsRaw(compact + SingleTags(h)), None).Some?
    ensures var header := Normalize(AsRaw(compact + SingleTags(h)), None).value;
            if f in h.single && h.single[f] != [] then f in header && Some(header[f]) == HeaderValue(f, h.single[f])
            else (f in header <==> f in compact) && (f in header ==> header[f] == compact[f])
  {
    var all := compact + SingleTags(h);
    var raw := AsRaw(all);
    AllFieldsListed();
    NamesDiffer(f, f);
    assert Name(f) in raw <==> f in all by {
      if Name(f) in raw {
        assert FieldNamed(Name(f)).value in all;
      }
    }
    hide NormalValue, HeaderValue, FieldNamed, Name, IsNormal;
    if f in all {
      OverlaidValue(h, compact, f);
      assert raw[Name(f)] == Plain(all[f]);
    }
  }

  /** Over any registry history, whatever token and scopes say: a header of its own decides its field; then
      the compact token of the headers does; and no other field is labelled as the header's. */
  lemma HeadersWin(a: Attributed, host: Host, h: Headers, pathToken: Option<Text>, ops: seq<Op>, f: Field)
    requires AttributionOf(a, host, h, pathToken, ops)
    ensures f in h.single && h.single[f] != [] ==>
              && f in a.sources && a.sources[f] == FromHeader && f in a.tags
              && if f.Seed? then ParseInt(h.single[f]).Some? && a.tags[f] == Num(ParseInt(h.single[f]).value)
                 else a.tags[f] == Str(h.single[f])
    ensures !(f in h.single && h.single[f] != []) && Given(h.compact) && f in Decode(host, h.compact.value).value ==>
              f in a.sources && a.sources[f] == FromHeader && f in a.tags && a.tags[f] == Decode(host, h.compact.value).value[f]
    ensures !(f in h.single && h.single[f] != []) && !(Given(h.compact) && f in Decode(host, h.compact.value).value) ==>
              f !in a.sources || a.sources[f] != FromHeader
  {
    HeaderTagsExactly(host, h, f);
    var header, fixed := HeaderTags(host, h).value, StaticTags(host, h, pathToken).value;
    var m := Merge(Active(RunOps(ops), LookupId(header, fixed)));
    StaticSource(h, pathToken);
    hide HeaderTags, StaticTags, Decode, Merge, RunOps, LookupId, ParseInt, StaticToken, Active, Lawful, SourceOf;
    HeaderDecides(a, header, m, fixed, StaticToken(h, pathToken), f);
  }

  lemma HeaderDecides(a: Attributed, header: TagMap, m: Merged, fixed: TagMap, token: Option<(Text, Source)>, f: Field)
    requires Lawful(a, header, m, fixed, token) && SourceOf(token) != FromHeader
    ensures f in header ==> f in a.tags && a.tags[f] == header[f] && f in a.sources && a.sources[f] == FromHeader
    ensures f !in header ==> f !in a.sources || a.sources[f] != FromHeader
  {
    hide LookupId, SourceOf;
    assert f in a.tags ==> Some(a.tags[f]) == FinalValue(header, m, fixed, f);
    assert f in a.sources ==> Some(a.sources[f]) == FinalSource(header, m, fixed, SourceOf(token), f);
  }

  lemma StaticSource(h: Headers, pathToken: Option<Text>)
    ensures StaticToken(h, pathToken).Some? <==> Given(pathToken) || Given(TokenFromApiKey(h.authorization))
    ensures StaticToken(h, pathToken).Some? ==>
              StaticToken(h, pathToken).value
              == if Given(pathToken) then (pathToken.value, PathToken) else (TokenFromApiKey(h.authorization).value, ApiKeyToken)
    ensures SourceOf(StaticToken(h, pathToken)) != FromHeader
  {
    hide TokenFromApiKey;
  }

  /** The client the request is about is the one its headers name, else the one its token names, else the
      system of its headers, else the system of its token. */
  predicate IsAbout(header: TagMap, fixed: TagMap, client: Text) {
    if ClientId in header then header[ClientId] == Str(client)
    else if ClientId in fixed then fixed[ClientId] == Str(client)
    else if System in header then header[System] == Str(client)
    else System in fixed && fixed[System] == Str(client)
  }

  lemma LookupExactly(header: TagMap, fixed: TagMap, client: Text)
    requires IsNormal(header) && IsNormal(fixed)
    ensures IsAbout(header, fixed, client) <==> LookupId(header, fixed) == Some(client)
    ensures LookupId(header, fixed).None? <==>
              ClientId !in header && ClientId !in fixed && System !in header && System !in fixed
  {
    assert forall f | f in header :: IsNormalValue(f, header[f]);
    assert forall f | f in fixed :: IsNormalValue(f, fixed[f]);
    hide AllowedOperation;
  }

  /** A request has the live scopes of the client it concerns, in enter order, and none if it concerns none. */
  lemma WhoseScopes(a: Attributed, host: Host, h: Headers, pathToken: Option<Text>, ops: seq<Op>, client: Text)
    requires AttributionOf(a, host, h, pathToken, ops)
    ensures var header, fixed := HeaderTags(host, h).value, StaticTags(host, h, pathToken).value;
            && (IsAbout(header, fixed, client) ==> HasIdsOf(a, LiveScopes(ops, |ops|, client)))
            && (ClientId !in header && ClientId !in fixed && System !in header && System !in fixed ==> HasIdsOf(a, []))
  {
    var header, fixed := HeaderTags(host, h).value, StaticTags(host, h, pathToken).value;
    DecodedIsNormal(host, h, pathToken);
    NormalizedHeaderIsNormal(host, h);
    LiveIsActive(host, h, pathToken, ops);
    hide HeaderTags, StaticTags, IsNormal, IsAbout, LookupId, HasIdsOf, Merge, RunOps, LiveScopes, FinalValue, FinalSource, Active;
    LookupExactly(header, fixed, client);
    MergedIds(a, Active(RunOps(ops), LookupId(header, fixed)));
  }

  lemma MergedIds(a: Attributed, scopes: seq<Scope>)
    requires var m := Merge(scopes); a.scopeIds == m.ids && a.state == m.state && a.ambiguous == m.ambiguous
    ensures HasIdsOf(a, scopes)
  {
    var at := MergeShape(scopes);
    hide Merge, Selects;
  }

  /** The attribution names these scopes, in this order. */
  predicate HasIdsOf(a: Attributed, scopes: seq<Scope>) {
    && |a.scopeIds| == |scopes| && (forall i | 0 <= i < |scopes| :: a.scopeIds[i] == scopes[i].id)
    && (a.state.NoScope? <==> |scopes| == 0) && (a.state.Single? <==> |scopes| == 1)
    && (a.state.Ambiguous? <==> |scopes| > 1 && a.ambiguous != [])
  }

  /** The token carries an object in which the first entry to be refused is an infinite seed. */
  ghost predicate Overflows(host: Host, token: Text) {
    && Carried(host, token).Some?
    && var entries := Carried(host, token).value;
       exists i | 0 <= i < |entries| :: InfiniteSeed(entries[i]) && Normalized(entries[..i], None).Success?
  }

  /** Attribution raises the error that nobody catches exactly when the static token overflows, or is fine
      and the compact header token overflows. */
  lemma OverflowExactly(host: Host, h: Headers, pathToken: Option<Text>)
    ensures StaticTags(host, h, pathToken) == Failure(OverflowError) <==>
              StaticToken(h, pathToken).Some? && Overflows(host, StaticToken(h, pathToken).value.0)
    ensures HeaderTags(host, h) == Failure(OverflowError) <==> Given(h.compact) && Overflows(host, h.compact.value)
  {
    hide Decode, Overflows, TokenFromApiKey, Normalize;
    if StaticToken(h, pathToken).Some? {
      DecodeMayOverflow(host, StaticToken(h, pathToken).value.0);
    }
    if Given(h.compact) {
      DecodeMayOverflow(host, h.compact.value);
    }
  }

  lemma DecodeMayOverflow(host: Host, token: Text)
    ensures Decode(host, token) == Failure(OverflowError) <==> Overflows(host, token)
  {
    DecodeOverflowsExactly(host, token);
    hide Decode, Carried;
  }

  /** After any run in which only validated tags were entered, the final validation rejects a system that
      is not allowed and otherwise changes nothing. */
  lemma FinalValidation(a: Attributed, host: Host, h: Headers, pathToken: Option<Text>, ops: seq<Op>, allowed: set<Text>)
    requires AttributionOf(a, host, h, pathToken, ops)
    requires forall op | op in ops :: op.Enter? ==> IsNormal(op.scope.tags)
    ensures IsNormal(a.tags)
    ensures Normalize(AsRaw(a.tags), Some(allowed)) == if SystemAllowed(a.tags, Some(allowed)) then Some(a.tags) else None
  {
    var header, fixed := HeaderTags(host, h).value, StaticTags(host, h, pathToken).value;
    TableStaysNormal(ops);
    DecodedIsNormal(host, h, pathToken);
    NormalizedHeaderIsNormal(host, h);
    MergedIsNormal(RunOps(ops), LookupId(header, fixed));
    hide HeaderTags, StaticTags, IsNormal, RunOps, LookupId, Lawful, Merge, Normalize, StaticToken;
    LawfulIsNormal(a, header, Merge(Active(RunOps(ops), LookupId(header, fixed))), fixed, StaticToken(h, pathToken));
    NormalizeSettles(a.tags, Some(allowed));
  }

  /** The scopes that the client of the request has entered and not yet exited. */
  function LiveFor(host: Host, h: Headers, pathToken: Option<Text>, ops: seq<Op>): (r: seq<Scope>)
    requires HeaderTags(host, h).Success? && StaticTags(host, h, pathToken).Success?
  {
    match LookupId(HeaderTags(host, h).value, StaticTags(host, h, pathToken).value)
    case None => []
    case Some(client) => LiveScopes(ops, |ops|, client)
  }

  /** Two of the scopes give the field different values, split surrogate pairs being joined. */
  predicate Differ(scopes: seq<Scope>, f: Field) {
    exists i, j | 0 <= i < |scopes| && 0 <= j < |scopes| && f in scopes[i].tags && f in scopes[j].tags ::
      CanonScalar(scopes[i].tags[f]) != CanonScalar(scopes[j].tags[f])
  }

  lemma {:induction false} DifferMeansAmbiguous(scopes: seq<Scope>, f: Field)
    ensures Differ(scopes, f) <==> !Agrees(scopes, f)
  {
    hide Print, CanonScalar;
    if Differ(scopes, f) {
      var i, j :| 0 <= i < |scopes| && 0 <= j < |scopes| && f in scopes[i].tags && f in scopes[j].tags
                  && CanonScalar(scopes[i].tags[f]) != CanonScalar(scopes[j].tags[f]);
      PrintDecidesExactly(scopes[i].tags[f], scopes[j].tags[f]);
      assert scopes[i] in scopes && scopes[j] in scopes;
    }
    if !Agrees(scopes, f) {
      var s, s' :| s in scopes && s' in scopes && f in s.tags && f in s'.tags && Print(s.tags[f]) != Print(s'.tags[f]);
      PrintDecidesExactly(s.tags[f], s'.tags[f]);
      var i :| 0 <= i < |scopes| && scopes[i] == s;
      var j :| 0 <= j < |scopes| && scopes[j] == s';
      assert CanonScalar(scopes[i].tags[f]) != CanonScalar(scopes[j].tags[f]);
    }
  }

  lemma LiveIsActive(host: Host, h: Headers, pathToken: Option<Text>, ops: seq<Op>)
    requires HeaderTags(host, h).Success? && StaticTags(host, h, pathToken).Success?
    ensures Active(RunOps(ops), LookupId(HeaderTags(host, h).value, StaticTags(host, h, pathToken).value)) == LiveFor(host, h, pathToken, ops)
  {
    var id := LookupId(HeaderTags(host, h).value, StaticTags(host, h, pathToken).value);
    hide HeaderTags, StaticTags, LookupId, RunOps, LiveScopes;
    if id.Some? {
      ActiveIsHistory(ops, id.value);
    }
  }

  /** Precedence over any history. A header value always wins. Otherwise a field on which two live scopes
      of the client differ is absent, even if the token has it; a field that live scopes define has the
      value of one of them, with which all agree; and only a field that no live scope defines is the token's. */
  lemma Precedence(a: Attributed, host: Host, h: Headers, pathToken: Option<Text>, ops: seq<Op>, f: Field)
    requires AttributionOf(a, host, h, pathToken, ops) && !f.ClientId?
    ensures var header, fixed, live := HeaderTags(host, h).value, StaticTags(host, h, pathToken).value, LiveFor(host, h, pathToken, ops);
            && (f in header ==> f in a.tags && a.tags[f] == header[f] && f in a.sources && a.sources[f] == FromHeader)
            && (f !in header && Differ(live, f) ==>
                  f !in a.tags && f in a.sources && a.sources[f] == AmbiguousScopes)
            && (f !in header && !Differ(live, f) && Defines(live, f) ==>
                  && f in a.tags && f in a.sources && a.sources[f] == FromScope
                  && (exists s | s in live :: f in s.tags && s.tags[f] == a.tags[f])
                  && (forall s | s in live && f in s.tags :: CanonScalar(s.tags[f]) == CanonScalar(a.tags[f])))
            && (f !in header && !Defines(live, f) ==>
                  && (f in a.tags <==> f in fixed) && (f in a.sources <==> f in fixed)
                  && (f in fixed ==> a.tags[f] == fixed[f] && a.sources[f] == if Given(pathToken) then PathToken else ApiKeyToken))
  {
    LiveIsActive(host, h, pathToken, ops);
    StaticSource(h, pathToken);
    FieldOf(a, HeaderTags(host, h).value, LiveFor(host, h, pathToken, ops), StaticTags(host, h, pathToken).value, StaticToken(h, pathToken), f);
  }

  lemma FieldOf(a: Attributed, header: TagMap, live: seq<Scope>, fixed: TagMap, token: Option<(Text, Source)>, f: Field)
    requires Lawful(a, header, Merge(live), fixed, token) && !f.ClientId?
    ensures f in header ==> f in a.tags && a.tags[f] == header[f] && f in a.sources && a.sources[f] == FromHeader
    ensures f !in header && Differ(live, f) ==> f !in a.tags && f in a.sources && a.sources[f] == AmbiguousScopes
    ensures f !in header && !Differ(live, f) && Defines(live, f) ==>
              && f in a.tags && f in a.sources && a.sources[f] == FromScope
              && (exists s | s in live :: f in s.tags && s.tags[f] == a.tags[f])
              && (forall s | s in live && f in s.tags :: CanonScalar(s.tags[f]) == CanonScalar(a.tags[f]))
    ensures f !in header && !Defines(live, f) ==>
              && (f in a.tags <==> f in fixed) && (f in a.sources <==> f in fixed)
              && (f in fixed ==> a.tags[f] == fixed[f] && a.sources[f] == SourceOf(token))
  {
    var m := Merge(live);
    DifferMeansAmbiguous(live, f);
    MergeFields(live, f);
    MergeMeaning(live, f);
    if !Defines(live, f) {
      NoTexts(live, f);
    } else if f in m.tags {
      assert m.tags[f] == FirstValue(live, f);
    }
    hide Merge, Defines, Agrees, Differ, FirstValue, CanonScalar, LookupId;
    assert f in a.tags ==> Some(a.tags[f]) == FinalValue(header, m, fixed, f);
    assert f in a.sources ==> Some(a.sources[f]) == FinalSource(header, m, fixed, SourceOf(token), f);
  }

  /** The client id is present whenever a lookup id exists. */
  lemma ClientIdAlwaysKnown(a: Attributed, header: TagMap, m: Merged, fixed: TagMap, token: Option<(Text, Source)>)
    requires Lawful(a, header, m, fixed, token) && LookupId(header, fixed).Some?
    ensures ClientId in a.tags
  {
  }

  predicate LabelledDerived(a: Attributed) {
    ClientId in a.sources && a.sources[ClientId] == DerivedFromSystem
  }

  /** The label "derived from system" is given when no header has the client id, some lookup id exists,
      and the scopes disagree on it or neither they nor the token have it. It is wrong, the value being
      the token's own client id, exactly when the token has one, the scopes disagree and no header has. */
  lemma DerivedLabelExactly(a: Attributed, header: TagMap, m: Merged, fixed: TagMap, token: Option<(Text, Source)>)
    requires Lawful(a, header, m, fixed, token)
    requires IsNormal(header) && IsNormal(fixed)
    requires token.Some? ==> token.value.1.PathToken? || token.value.1.ApiKeyToken?
    ensures LabelledDerived(a) <==>
              && ClientId !in header && LookupId(header, fixed).Some?
              && (ClientId in m.ambiguous || (ClientId !in m.tags && ClientId !in fixed))
    ensures LabelledDerived(a) && ClientId in fixed <==>
              ClientId !in header && ClientId in m.ambiguous && ClientId in fixed
    ensures LabelledDerived(a) ==>
              && ClientId in a.tags
              && a.tags[ClientId] == if ClientId in fixed then fixed[ClientId]
                                     else if System in header then header[System] else fixed[System]
  {
    if ClientId in header {
      assert IsNormalValue(ClientId, header[ClientId]);
    }
    if ClientId in fixed {
      assert IsNormalValue(ClientId, fixed[ClientId]);
    }
    if System in header {
      assert IsNormalValue(System, header[System]);
    }
    if System in fixed {
      assert IsNormalValue(System, fixed[System]);
    }
    assert ClientId in a.sources ==> Some(a.sources[ClientId]) == FinalSource(header, m, fixed, SourceOf(token), ClientId);
    assert ClientId in a.tags ==> Some(a.tags[ClientId]) == FinalValue(header, m, fixed, ClientId);
  }

  /** A run in which the label is wrong: client "c" enters two scopes that name different clients, and a
      request without headers has the path token of the tags that name "c" and no system at all. */
  lemma DerivedLabelWrong(host: Host) returns (a: Attributed)
    ensures var c: Text := [99];
            var ops := [Enter(c, Scope([49], map[ClientId := Str([120])]))] + [Enter(c, Scope([50], map[ClientId := Str([121])]))];
            AttributionOf(a, host, Headers(None, None, map[]), Some(Token(map[ClientId := Str(c)])), ops)
    ensures LabelledDerived(a) && a.tags == map[ClientId := Str([99])]
  {
    var c: Text := [99];
    var s, s' := Scope([49], map[ClientId := Str([120])]), Scope([50], map[ClientId := Str([121])]);
    var h, fixed: TagMap := Headers(None, None, map[]), map[ClientId := Str(c)];
    var m := Merge([s, s']);
    TwoEnters(c, s, s');
    forall f ensures f in m.ambiguous <==> f.ClientId? ensures f !in m.tags {
      TwoClients(s, s', f);
    }
    PathTokenOf(host, c);
    hide Merge, RunOps, Lawful, StaticTags, HeaderTags, StaticToken, Token;
    a := OnlyTokenClient(m, c, Token(fixed));
  }

  /** A request with a path token that names a client, and no headers. */
  lemma PathTokenOf(host: Host, c: Text)
    requires c == [99]
    ensures var h, fixed: TagMap := Headers(None, None, map[]), map[ClientId := Str(c)];
            && StaticToken(h, Some(Token(fixed))) == Some((Token(fixed), PathToken))
            && StaticTags(host, h, Some(Token(fixed))) == Success(fixed)
            && HeaderTags(host, h) == Success(map[])
  {
    OneClientTag(host, c);
    NoHeaders(host);
    hide Decode, Token, HeaderTags, TokenFromApiKey;
  }

  lemma OneClientTag(host: Host, c: Text)
    requires c == [99]
    ensures var fixed: TagMap := map[ClientId := Str(c)];
            Token(fixed) != [] && Decode(host, Token(fixed)) == Success(fixed)
  {
    var fixed: TagMap := map[ClientId := Str(c)];
    DecodeToken(host, fixed);
    hide Decode, Token;
    assert Canon(c) == c;
    assert CanonTags(fixed) == fixed;
  }

  lemma NoHeaders(host: Host)
    ensures HeaderTags(host, Headers(None, None, map[])) == Success(map[])
  {
    var h, nothing: TagMap := Headers(None, None, map[]), map[];
    NormalizeSettles(nothing, None);
    hide Normalize, AsRaw, Decode;
    assert nothing + SingleTags(h) == nothing;
  }

  lemma OnlyTokenClient(m: Merged, c: Text, token: Text) returns (a: Attributed)
    requires c != [] && forall f :: (f in m.ambiguous <==> f.ClientId?) && f !in m.tags
    ensures LookupId(map[], map[ClientId := Str(c)]) == Some(c)
    ensures Lawful(a, map[], m, map[ClientId := Str(c)], Some((token, PathToken)))
    ensures LabelledDerived(a) && a.tags == map[ClientId := Str(c)]
  {
    var fixed: TagMap := map[ClientId := Str(c)];
    assert LookupId(map[], fixed) == Some(c);
    hide LookupId;
    a := Attributed(map[ClientId := Str(c)], map[ClientId := DerivedFromSystem], m.ids, m.state, m.ambiguous, true);
  }

  lemma TwoClients(s: Scope, s': Scope, f: Field)
    requires s.tags == map[ClientId := Str([120])] && s'.tags == map[ClientId := Str([121])]
    ensures f in Merge([s, s']).ambiguous <==> f.ClientId?
    ensures f !in Merge([s, s']).tags
  {
    MergeFields([s, s'], f);
    DifferMeansAmbiguous([s, s'], f);
    hide Merge, Agrees;
    if f.ClientId? {
      assert CanonScalar([s, s'][0].tags[f]) != CanonScalar([s, s'][1].tags[f]);
    }
  }

  lemma TwoEnters(c: Text, s: Scope, s': Scope)
    requires c != [] && s.id != [] && s'.id != [] && s.id != s'.id
    ensures Active(RunOps([Enter(c, s)] + [Enter(c, s')]), Some(c)) == [s, s']
  {
    var first, second := Enter(c, s), Enter(c, s');
    assert ([first] + [second])[..1] == [first] && [first][..0] == [];
    assert RunOps([first]) == Apply(map[], first);
    assert RunOps([first] + [second]) == Apply(RunOps([first]), second);
    assert Active(RunOps([first]), Some(c)) == [s];
    assert !HasId([s], s'.id);
  }

  /** Whatever other clients enter and exit, in any run, the attribution of a request is the same. */
  lemma OtherClientsNeverMatter(ops: seq<Op>, a: Attributed, b: Attributed, header: TagMap, fixed: TagMap, token: Option<(Text, Source)>, client: Text)
    requires LookupId(header, fixed) == Some(client)
    requires Lawful(a, header, Merge(Active(RunOps(ops), Some(client))), fixed, token)
    requires Lawful(b, header, Merge(Active(RunOps(OpsOf(ops, client)), Some(client))), fixed, token)
    ensures a == b
  {
    OtherClientsIrrelevant(ops, client);
    LawDeterminesAttribution(a, b, header, Merge(Active(RunOps(ops), Some(client))), fixed, token);
  }
}
