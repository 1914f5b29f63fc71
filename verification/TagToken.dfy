/** The static tag token: encoding, decoding and its two carriers, API key and URL path. */
module TagToken {
  import opened Common
  import opened SseFraming
  import opened Text
  import opened JsonBytes
  import opened TagJson
  import opened Base64Url
  import opened Tags

  /** The fields in the order of their names, as `sort_keys` writes them. */
  const SORTED: seq<Field> := [ClientId, Configuration, Operation, RunId, Seed, SessionId, System]

  function MembersFrom(t: TagMap, fields: seq<Field>): (r: seq<Member>) {
    if fields == [] then []
    else (if fields[0] in t then [(Name(fields[0]), t[fields[0]])] else []) + MembersFrom(t, fields[1..])
  }

  function Payload(t: TagMap): (r: Text)
    ensures IsAscii(r) && r != []
  {
    PrintObjectAscii(MembersFrom(t, SORTED));
    PrintObject(MembersFrom(t, SORTED))
  }

  function Token(t: TagMap): (r: Text) {
    Unpadded(ToBytes(Payload(t)))
  }

  /** `encode_tags`, of a map that is accepted. */
  function Encode(raw: RawTags): (r: Option<Text>) {
    match Normalize(raw, None)
    case None => None
    case Some(t) => Some(Token(t))
  }

  /** A dictionary entry: an old name keeps its place and gets the new value. */
  function Put(entries: seq<RawMember>, m: RawMember): (r: seq<RawMember>) {
    if entries == [] then [m]
    else if entries[0].0 == m.0 then [m] + entries[1..]
    else [entries[0]] + Put(entries[1..], m)
  }

  /** The dictionary of an object's members, in its order. */
  function Entries(ms: seq<RawMember>): (r: seq<RawMember>) {
    if ms == [] then [] else Put(Entries(ms[..|ms| - 1]), ms[|ms| - 1])
  }

  predicate IsSurrogate(c: CodePoint) {
    IsHigh(c) || IsLow(c)
  }

  /** The entries a token carries, if it is base64url of a JSON object in any of its encodings. */
  function Carried(host: Host, token: Text): (r: Option<seq<RawMember>>) {
    if exists c | c in token :: IsSurrogate(c) then None
    else match Decoded(token)
      case None => None
      case Some(b) => match DocumentText(b)
        case None => None
        case Some(document) => match ReadObject(host, document)
          case None => None
          case Some(ms) => Some(Entries(ms))
  }

  /** `decode_tags`: everything that is wrong with the token itself is a TagError, but validation of what
      it carries is not guarded. */
  function Decode(host: Host, token: Text): (r: Result<TagMap, TagError>) {
    match Carried(host, token)
    case None => Failure(TagError)
    case Some(entries) => Normalized(entries, None)
  }

  /** A token with a surrogate in it cannot be encoded, and is refused like any malformed one. */
  lemma SurrogateRefused(host: Host, token: Text, i: nat)
    requires i < |token| && 0xD800 <= token[i] <= 0xDFFF
    ensures Decode(host, token) == Failure(TagError)
  {
    assert token[i] in token && IsSurrogate(token[i]);
    hide Decoded, DocumentText, ReadObject;
  }

  // ---- dictionaries ------------------------------------------------------

  lemma {:induction false} PutEntries(entries: seq<RawMember>, m: RawMember)
    requires DistinctNames(entries)
    ensures DistinctNames(Put(entries, m))
    ensures forall i | 0 <= i < |Put(entries, m)| :: Put(entries, m)[i] == m || Put(entries, m)[i] in entries
    ensures forall i | 0 <= i < |entries| :: entries[i].0 != m.0 ==> entries[i] in Put(entries, m)
    ensures m in Put(entries, m)
  {
    if entries != [] && entries[0].0 != m.0 {
      var first, rest := entries[0], entries[1..];
      assert Put(entries, m) == [first] + Put(rest, m);
      assert forall i | 0 <= i < |rest| :: rest[i] == entries[i + 1];
      PutEntries(rest, m);
      hide Put;
      PutAfterFirst(first, rest, m, Put(rest, m));
      assert entries == [first] + rest;
    }
  }

  lemma PutAfterFirst(first: RawMember, rest: seq<RawMember>, m: RawMember, put: seq<RawMember>)
    requires DistinctNames([first] + rest) && first.0 != m.0 && DistinctNames(put)
    requires forall i | 0 <= i < |put| :: put[i] == m || put[i] in rest
    requires forall i | 0 <= i < |rest| :: rest[i].0 != m.0 ==> rest[i] in put
    ensures DistinctNames([first] + put)
    ensures forall i | 0 <= i < |[first] + put| :: ([first] + put)[i] == m || ([first] + put)[i] in [first] + rest
    ensures forall i | 0 <= i < |[first] + rest| :: ([first] + rest)[i].0 != m.0 ==> ([first] + rest)[i] in [first] + put
  {
    forall i | 0 <= i < |put| ensures put[i].0 != first.0 {
      if put[i] != m {
        var k :| 0 <= k < |rest| && rest[k] == put[i];
        assert ([first] + rest)[k + 1] == put[i] && ([first] + rest)[0] == first;
      }
    }
  }

  /** A new name goes to the end, an old one keeps its place. */
  lemma {:induction false} PutExactly(entries: seq<RawMember>, m: RawMember, i: nat)
    requires DistinctNames(entries)
    ensures (forall k | 0 <= k < |entries| :: entries[k].0 != m.0) ==> Put(entries, m) == entries + [m]
    ensures i < |entries| && entries[i].0 == m.0 ==> Put(entries, m) == entries[i := m]
  {
    if entries != [] && entries[0].0 != m.0 {
      var rest := entries[1..];
      assert forall k | 0 <= k < |rest| :: rest[k] == entries[k + 1];
      PutExactly(rest, m, if i == 0 then 0 else i - 1);
      assert entries == [entries[0]] + rest;
      if i < |entries| && entries[i].0 == m.0 {
        assert rest[i - 1] == entries[i];
      }
    }
  }

  /** Reading entries in order, or all members with the later ones winning, gives the same map. */
  lemma {:induction false} EntriesOfMembers(ms: seq<RawMember>)
    ensures DistinctNames(Entries(ms)) && Object(Entries(ms)) == Object(ms)
    decreases |ms|
  {
    if ms != [] {
      var init, last := ms[..|ms| - 1], ms[|ms| - 1];
      EntriesOfMembers(init);
      PutEntries(Entries(init), last);
      PutObject(Entries(init), last);
    }
  }

  lemma {:induction false} PutObject(entries: seq<RawMember>, m: RawMember)
    requires DistinctNames(entries)
    ensures Object(Put(entries, m)) == Object(entries)[m.0 := m.1]
  {
    var put := Put(entries, m);
    PutEntries(entries, m);
    forall k ensures k in Object(put) <==> k in Object(entries) || k == m.0 {
      NameIn(put, k);
      NameIn(entries, k);
    }
    forall k | k in Object(put) ensures Object(put)[k] == Object(entries)[m.0 := m.1][k] {
      NameIn(put, k);
      var i :| 0 <= i < |put| && put[i].0 == k;
      ObjectValues(put, i);
      if put[i] != m {
        var j :| 0 <= j < |entries| && entries[j] == put[i];
        ObjectValues(entries, j);
        OnlyOnce(put, m, i);
      }
    }
  }

  lemma NameIn(entries: seq<RawMember>, k: Text)
    ensures k in Object(entries) <==> exists i | 0 <= i < |entries| :: entries[i].0 == k
    ensures k in Object(entries) <==> exists e | e in entries :: e.0 == k
  {
    ObjectNames(entries, k);
    if k in Object(entries) {
      var i :| 0 <= i < |entries| && entries[i].0 == k;
      assert entries[i] in entries;
    }
  }

  lemma OnlyOnce(entries: seq<RawMember>, m: RawMember, i: nat)
    requires DistinctNames(entries) && m in entries && i < |entries| && entries[i] != m
    ensures entries[i].0 != m.0
  {
    var j :| 0 <= j < |entries| && entries[j] == m;
  }

  /** A token is refused with an overflow exactly when the first of its entries to be refused is an
      infinite seed. */
  lemma DecodeOverflowsExactly(host: Host, token: Text)
    ensures Decode(host, token) == Failure(OverflowError) <==>
            && Carried(host, token).Some?
            && var entries := Carried(host, token).value;
               exists i | 0 <= i < |entries| :: InfiniteSeed(entries[i]) && Normalized(entries[..i], None).Success?
  {
    hide Entries, Normalized, ReadObject, Decoded, DocumentText, InfiniteSeed;
    if Carried(host, token).Some? {
      var ms := ReadObject(host, DocumentText(Decoded(token).value).value).value;
      EntriesOfMembers(ms);
      NormalizedExactly(Entries(ms), None);
    }
  }

  // ---- round trip --------------------------------------------------------

  function CanonTags(t: TagMap): (r: TagMap) {
    map f | f in t :: CanonScalar(t[f])
  }

  /** Some tag holds an astral character as two separate surrogates. */
  predicate HasSplitTag(t: TagMap) {
    exists f | f in t :: t[f].Str? && HasSplitPair(t[f].s)
  }

  lemma CanonTagsFixesExactly(t: TagMap)
    ensures CanonTags(t) == t <==> !HasSplitTag(t)
  {
    forall f | f in t ensures CanonScalar(t[f]) == t[f] <==> !(t[f].Str? && HasSplitPair(t[f].s)) {
      if t[f].Str? {
        CanonFixesExactly(t[f].s);
      }
    }
    if HasSplitTag(t) {
      var f :| f in t && t[f].Str? && HasSplitPair(t[f].s);
      assert CanonTags(t)[f] != t[f];
    }
  }

  lemma AsciiIsCanonical(s: Text)
    requires IsAscii(s)
    ensures Canon(s) == s
  {
    CanonFixesExactly(s);
  }

  lemma NameIsCanonical(f: Field)
    ensures Canon(Name(f)) == Name(f)
  {
    NamesDiffer(f, f);
    AsciiIsCanonical(Name(f));
  }

  lemma CanonMembersCons(m: Member, ms: seq<Member>)
    ensures CanonMembers([m] + ms) == [(Canon(m.0), CanonScalar(m.1))] + CanonMembers(ms)
  {
    assert ([m] + ms)[1..] == ms;
  }

  lemma {:induction false} CanonMembersFrom(t: TagMap, fields: seq<Field>)
    ensures CanonMembers(MembersFrom(t, fields)) == MembersFrom(CanonTags(t), fields)
  {
    if fields != [] {
      CanonMembersFrom(t, fields[1..]);
      NameIsCanonical(fields[0]);
      if fields[0] in t {
        var m := (Name(fields[0]), t[fields[0]]);
        assert MembersFrom(t, fields) == [m] + MembersFrom(t, fields[1..]);
        CanonMembersCons(m, MembersFrom(t, fields[1..]));
      } else {
        assert MembersFrom(t, fields) == MembersFrom(t, fields[1..]);
      }
    }
  }

  /** The object built from a listing of distinct fields holds exactly the listed tags. */
  lemma {:induction false} ObjectOf(t: TagMap, fields: seq<Field>)
    requires Distinct(fields)
    ensures var o := Object(Raw(MembersFrom(t, fields)));
            && (forall f | f in t && f in fields :: Name(f) in o && o[Name(f)] == Plain(t[f]))
            && (forall k | k in o :: FieldNamed(k).Some? && FieldNamed(k).value in t && FieldNamed(k).value in fields)
    decreases |fields|
  {
    hide Name, FieldNamed;
    if fields != [] {
      var init, last := fields[..|fields| - 1], fields[|fields| - 1];
      ObjectOf(t, init);
      MembersSnoc(t, init, last);
      assert fields == init + [last];
      forall f ensures FieldNamed(Name(f)) == Some(f) && (Name(f) == Name(last) ==> f == last) {
        NamesDiffer(f, last);
      }
      var o := Object(Raw(MembersFrom(t, fields)));
      if last in t {
        RawSnoc(MembersFrom(t, init), (Name(last), t[last]));
        ObjectSnoc(Raw(MembersFrom(t, init)), (Name(last), Plain(t[last])));
      } else {
        assert MembersFrom(t, fields) == MembersFrom(t, init);
      }
      forall f | f in t && f in fields ensures Name(f) in o && o[Name(f)] == Plain(t[f]) {
        assert f in init || f == last;
      }
    }
  }

  lemma {:induction false} RawSnoc(ms: seq<Member>, m: Member)
    ensures Raw(ms + [m]) == Raw(ms) + [(m.0, Plain(m.1))]
  {
    if ms == [] {
      assert [] + [m] == [m] && [m][1..] == [];
    } else {
      assert (ms + [m])[1..] == ms[1..] + [m];
      RawSnoc(ms[1..], m);
    }
  }

  lemma ObjectSnoc(ms: seq<RawMember>, m: RawMember)
    ensures Object(ms + [m]) == Object(ms)[m.0 := m.1]
  {
    assert (ms + [m])[..|ms|] == ms;
  }

  lemma {:induction false} MembersSnoc(t: TagMap, fields: seq<Field>, f: Field)
    ensures MembersFrom(t, fields + [f])
            == MembersFrom(t, fields) + (if f in t then [(Name(f), t[f])] else [])
  {
    if fields == [] {
      assert [f][1..] == [] && [] + [f] == [f];
    } else {
      assert (fields + [f])[1..] == fields[1..] + [f];
      MembersSnoc(t, fields[1..], f);
    }
  }

  lemma SortedListsAll()
    ensures Distinct(SORTED) && forall f: Field :: f in SORTED
  {
    forall f: Field ensures f in SORTED {
      match f
      case ClientId => assert SORTED[0] == ClientId;
      case Configuration => assert SORTED[1] == Configuration;
      case Operation => assert SORTED[2] == Operation;
      case RunId => assert SORTED[3] == RunId;
      case Seed => assert SORTED[4] == Seed;
      case SessionId => assert SORTED[5] == SessionId;
      case System => assert SORTED[6] == System;
    }
  }

  lemma ObjectOfMembers(t: TagMap)
    ensures Object(Raw(MembersFrom(t, SORTED))) == AsRaw(t)
  {
    hide Name, FieldNamed;
    SortedListsAll();
    ObjectOf(t, SORTED);
    var o, r := Object(Raw(MembersFrom(t, SORTED))), AsRaw(t);
    forall f ensures FieldNamed(Name(f)) == Some(f) { NamesDiffer(f, f); }
    forall k | k in o ensures k in r && r[k] == o[k] {
      var f := FieldNamed(k).value;
      assert Name(f) == k;
    }
    forall k | k in r ensures k in o {
      assert Name(FieldNamed(k).value) == k;
    }
  }

  lemma CanonValueNormal(f: Field, v: Scalar)
    requires IsNormalValue(f, v)
    ensures IsNormalValue(f, CanonScalar(v))
  {
    hide Canon;
    if f.Operation? {
      assert IsAscii(v.s);
      AsciiIsCanonical(v.s);
    }
  }

  lemma CanonStaysNormal(t: TagMap)
    requires IsNormal(t)
    ensures IsNormal(CanonTags(t))
  {
    hide IsNormalValue, CanonScalar;
    forall f | f in t ensures IsNormalValue(f, CanonScalar(t[f])) {
      CanonValueNormal(f, t[f]);
    }
  }

  lemma PayloadStart(t: TagMap)
    ensures |Payload(t)| >= 2 && Payload(t)[0] != 0 && Payload(t)[1] != 0
  {
    var ms := MembersFrom(t, SORTED);
    hide MembersFrom, PrintMembers;
    if ms != [] {
      ReadMembersOf(Host(_ => NotANumber, _ => None), ms, []);
    }
  }

  /** Decoding a token always gives the tags with their split pairs joined. */
  lemma DecodeToken(host: Host, t: TagMap)
    requires IsNormal(t)
    ensures Decode(host, Token(t)) == Success(CanonTags(t))
    ensures Token(t) != [] && forall c | c in Token(t) :: IsTokenChar(c)
  {
    CarriedByToken(host, t);
    var ms := Raw(MembersFrom(CanonTags(t), SORTED));
    EntriesOfMembers(ms);
    ObjectOfMembers(CanonTags(t));
    CanonStaysNormal(t);
    NormalizeSettles(CanonTags(t), None);
    hide Carried, MembersFrom, Normalize, IsNormal, Token, Canon, Object, Entries, Raw, Normalized;
    NormalizedExactly(Entries(ms), None);
  }

  lemma CarriedByToken(host: Host, t: TagMap)
    requires IsNormal(t)
    ensures Carried(host, Token(t)) == Some(Entries(Raw(MembersFrom(CanonTags(t), SORTED))))
    ensures Token(t) != [] && forall c | c in Token(t) :: IsTokenChar(c)
  {
    hide ReadObject, PrintObject, MembersFrom, CanonMembers, IsNormal, Unpadded, Decoded, Canon, Raw, DocumentText, Entries;
    var ms, b := MembersFrom(t, SORTED), ToBytes(Payload(t));
    UnpaddedRestores(b);
    RoundTrip(b);
    PayloadStart(t);
    DocumentOfAscii(Payload(t));
    ReadObjectOf(host, ms);
    CanonMembersFrom(t, SORTED);
  }

  /** decode(encode(tags)) is normalize(tags) up to joined surrogate pairs, for every accepted map. */
  lemma DecodeEncode(host: Host, raw: RawTags)
    requires Normalize(raw, None).Some?
    ensures Encode(raw).Some?
    ensures Decode(host, Encode(raw).value) == Success(CanonTags(Normalize(raw, None).value))
  {
    NormalizeGivesNormal(raw, None);
    DecodeToken(host, Normalize(raw, None).value);
  }

  /** The round trip law decode(encode(tags)) == normalize(tags) holds exactly when no normalised
      value holds an astral character as two separate surrogate code points. */
  lemma RoundTripExactly(host: Host, raw: RawTags)
    requires Normalize(raw, None).Some?
    ensures Decode(host, Encode(raw).value) == Success(Normalize(raw, None).value) <==> !HasSplitTag(Normalize(raw, None).value)
  {
    DecodeEncode(host, raw);
    CanonTagsFixesExactly(Normalize(raw, None).value);
  }

  lemma CanonTagsHaveNoSplit(t: TagMap)
    ensures !HasSplitTag(CanonTags(t))
  {
    forall f | f in t ensures CanonScalar(t[f]).Str? ==> !HasSplitPair(CanonScalar(t[f]).s) {
      if t[f].Str? {
        CanonIsCanonical(t[f].s);
      }
    }
  }

  /** What has been through a token once survives it unchanged from then on. */
  lemma RoundTripSettles(host: Host, raw: RawTags)
    requires Normalize(raw, None).Some?
    ensures var t := Decode(host, Encode(raw).value);
            t.Success? && Decode(host, Token(t.value)) == t
  {
    var t := Normalize(raw, None).value;
    DecodeEncode(host, raw);
    NormalizeGivesNormal(raw, None);
    CanonStaysNormal(t);
    DecodeToken(host, CanonTags(t));
    CanonTagsHaveNoSplit(t);
    CanonTagsFixesExactly(CanonTags(t));
  }

  // ---- when two maps share a token ---------------------------------------

  lemma {:induction false} EscapeAllOfCanon(s: Text)
    ensures EscapeAll(Canon(s)) == EscapeAll(s)
    decreases |s|
  {
    if |s| >= 2 {
      if IsPair(s, 0) {
        EscapeAllOfCanon(s[2..]);
        var c := Combine(s[0], s[1]);
        assert Canon(s)[1..] == Canon(s[2..]);
        assert HighOf(c) == s[0] as int && LowOf(c) == s[1] as int;
        assert s[1..][0] == s[1] && s[1..][1..] == s[2..];
        Assoc(Escape(s[0]), Escape(s[1]), EscapeAll(s[2..]));
      } else {
        EscapeAllOfCanon(s[1..]);
        assert Canon(s)[1..] == Canon(s[1..]);
      }
    }
  }

  lemma {:induction false} PrintMembersOfCanon(ms: seq<Member>)
    requires ms != []
    ensures PrintMembers(CanonMembers(ms)) == PrintMembers(ms)
    decreases |ms|
  {
    var c := CanonMembers(ms);
    EscapeAllOfCanon(ms[0].0);
    if ms[0].1.Str? {
      EscapeAllOfCanon(ms[0].1.s);
    }
    assert c[0] == (Canon(ms[0].0), CanonScalar(ms[0].1));
    assert Print(c[0].1) == Print(ms[0].1);
    if |ms| > 1 {
      PrintMembersOfCanon(ms[1..]);
      assert c[1..] == CanonMembers(ms[1..]);
    }
  }

  lemma TokenOfCanon(t: TagMap)
    ensures Token(CanonTags(t)) == Token(t)
  {
    CanonMembersFrom(t, SORTED);
    var ms := MembersFrom(t, SORTED);
    if ms != [] {
      PrintMembersOfCanon(ms);
    }
  }

  /** Two accepted maps have the same token exactly when their normal forms agree up to joined
      surrogate pairs; without split pairs, exactly when the normal forms are equal. */
  lemma SameTokenExactly(raw1: RawTags, raw2: RawTags)
    requires Normalize(raw1, None).Some? && Normalize(raw2, None).Some?
    ensures Encode(raw1) == Encode(raw2)
            <==> CanonTags(Normalize(raw1, None).value) == CanonTags(Normalize(raw2, None).value)
    ensures !HasSplitTag(Normalize(raw1, None).value) && !HasSplitTag(Normalize(raw2, None).value) ==>
              (Encode(raw1) == Encode(raw2) <==> Normalize(raw1, None) == Normalize(raw2, None))
  {
    var t1, t2 := Normalize(raw1, None).value, Normalize(raw2, None).value;
    var host := Host(_ => NotANumber, _ => None);
    DecodeEncode(host, raw1);
    DecodeEncode(host, raw2);
    TokenOfCanon(t1);
    TokenOfCanon(t2);
    CanonTagsFixesExactly(t1);
    CanonTagsFixesExactly(t2);
  }

  /** The law as promised does fail: a two-surrogate configuration comes back as one character. */
  lemma RoundTripCounterexample(host: Host)
    ensures var raw: RawTags := map[Name(Configuration) := Plain(Str([0xD83D, 0xDE00]))];
            && Normalize(raw, None).Some?
            && Decode(host, Encode(raw).value) == Success(map[Configuration := Str([0x1F600])])
  {
    hide Decode, Encode, Normalize, Name, Canon;
    var s: Text := [0xD83D, 0xDE00];
    var t: TagMap := map[Configuration := Str(s)];
    var raw: RawTags := map[Name(Configuration) := Plain(Str(s))];
    RawOfOne(Configuration, Str(s));
    NormalizeSettles(t, None);
    DecodeEncode(host, raw);
    CanonOfOnePair(s);
    assert CanonTags(t) == map[Configuration := Str([0x1F600])];
  }

  lemma RawOfOne(f: Field, v: Scalar)
    ensures AsRaw(map[f := v]) == map[Name(f) := Plain(v)]
  {
    NamesDiffer(f, f);
  }

  lemma CanonOfOnePair(s: Text)
    requires s == [0xD83D, 0xDE00]
    ensures Canon(s) == [0x1F600]
  {
    assert IsPair(s, 0) && s[2..] == [];
  }

  // ---- tokens that overflow ----------------------------------------------

  /** The token of an object whose only member is a seed, written as `literal`. */
  function SeedToken(literal: Text): (token: Text)
    requires IsAscii(literal)
  {
    SeedDocumentAscii(literal);
    Unpadded(ToBytes(SeedDocument(literal)))
  }

  function SeedDocument(literal: Text): (r: Text) {
    [OPEN] + ([QUOTE] + (EscapeAll(Name(Seed)) + ([QUOTE, COLON] + literal)) + [CLOSE])
  }

  lemma SeedDocumentAscii(literal: Text)
    requires IsAscii(literal)
    ensures IsAscii(SeedDocument(literal)) && |SeedDocument(literal)| >= 2
    ensures SeedDocument(literal)[0] == OPEN && SeedDocument(literal)[1] == QUOTE
  {
    EscapeAllAscii(Name(Seed));
    hide EscapeAll, Name;
  }

  lemma SeedTokenShape(literal: Text)
    requires IsAscii(literal)
    ensures SeedToken(literal) != [] && NoSpace(SeedToken(literal))
  {
    SeedDocumentAscii(literal);
    UnpaddedRestores(ToBytes(SeedDocument(literal)));
    hide SeedDocument, Unpadded, ToBytes;
    TokenCharsArePlain(SeedToken(literal));
  }

  lemma EntryAlone(m: RawMember)
    ensures Entries([m]) == [m]
  {
    assert [m][..0] == [] && Entries([]) == [];
    assert Entries([m]) == Put([], m);
  }

  lemma SeedTokenCarries(host: Host, literal: Text, v: RawValue)
    requires IsAscii(literal) && literal != [] && !IsWs(literal[0])
    requires ReadValue(host, literal + [CLOSE]) == Ok(v, [CLOSE])
    ensures Carried(host, SeedToken(literal)) == Some([(Name(Seed), v)])
  {
    var document := SeedDocument(literal);
    SeedDocumentAscii(literal);
    UnpaddedRestores(ToBytes(document));
    RoundTrip(ToBytes(document));
    DocumentOfAscii(document);
    ReadOneMember(host, Name(Seed), literal, v);
    NameIsCanonical(Seed);
    EntryAlone((Name(Seed), v));
    hide ReadObject, SeedDocument, Unpadded, Decoded, DocumentText, Name, ReadValue, Entries;
  }

  lemma OneInfiniteSeed(v: RawValue)
    requires v.Fraction? && v.f.Infinite?
    ensures Normalized([(Name(Seed), v)], None) == Failure(OverflowError)
  {
    NamesDiffer(Seed, Seed);
    hide Name, FieldNamed;
  }

  lemma SeedTokenOverflows(host: Host, literal: Text, v: RawValue)
    requires IsAscii(literal) && literal != [] && !IsWs(literal[0])
    requires ReadValue(host, literal + [CLOSE]) == Ok(v, [CLOSE]) && v.Fraction? && v.f.Infinite?
    ensures Decode(host, SeedToken(literal)) == Failure(OverflowError)
  {
    SeedTokenCarries(host, literal, v);
    OneInfiniteSeed(v);
    hide Carried, Normalized, ReadValue, SeedToken;
  }

  /** The token of {"seed":Infinity}. */
  function InfinityToken(): (token: Text)
    ensures token != [] && NoSpace(token)
  {
    hide NoSpace, Unpadded, ToBytes, SeedDocument;
    SeedTokenShape(INFINITY);
    SeedToken(INFINITY)
  }

  /** It raises an overflow. */
  lemma InfinityOverflows(host: Host)
    ensures Decode(host, InfinityToken()) == Failure(OverflowError)
  {
    ReadInfinity(host);
    hide ReadValue, Decode, SeedToken, NoSpace;
    SeedTokenOverflows(host, INFINITY, Fraction(Infinite(false)));
  }

  lemma ReadInfinity(host: Host)
    ensures ReadValue(host, INFINITY + [CLOSE]) == Ok(Fraction(Infinite(false)), [CLOSE])
  {
    assert (INFINITY + [CLOSE])[8..] == [CLOSE];
    NoPrefix([45] + INFINITY, INFINITY + [CLOSE], 0);
  }

  /** So does the token of {"seed":1e999}, that decimal being rounded to an infinite number. */
  lemma HugeOverflows(host: Host)
    requires host.round(HUGE).Infinite?
    ensures Decode(host, SeedToken(HUGE)) == Failure(OverflowError)
  {
    ReadHuge(host);
    hide ReadValue, Decode, SeedToken;
    SeedTokenOverflows(host, HUGE, Fraction(host.round(HUGE)));
  }

  const HUGE: Text := [49, 101, 57, 57, 57]

  lemma ReadHuge(host: Host)
    ensures ReadValue(host, HUGE + [CLOSE]) == Ok(Fraction(host.round(HUGE)), [CLOSE])
  {
    var t := HUGE + [CLOSE];
    var exponent: Text := [101, 57, 57, 57, CLOSE];
    var digits: Text := [57, 57, 57];
    NoPrefix([45] + INFINITY, t, 0);
    TakeDigitsOf([49], exponent);
    assert t == [49] + exponent;
    TakeDigitsOf(digits, [CLOSE]);
    assert exponent[1..] == digits + [CLOSE] && exponent[0..] == exponent;
    assert Value([49]) == 1;
    assert ReadInt(t) == Ok(1, exponent);
    assert FractionLength(exponent) == 0 && ExponentLength(exponent) == 4;
    assert t[..5] == HUGE && exponent[4..] == [CLOSE];
  }

  // ---- documents and tokens, literally -----------------------------------

  /** The names of the fields, in ascending order. */
  lemma SortedLiterally()
    ensures |SORTED| == 7
    ensures Name(SORTED[0]) == Ascii("client_id") && Name(SORTED[1]) == Ascii("configuration")
    ensures Name(SORTED[2]) == Ascii("operation") && Name(SORTED[3]) == Ascii("run_id")
    ensures Name(SORTED[4]) == Ascii("seed") && Name(SORTED[5]) == Ascii("session_id") && Name(SORTED[6]) == Ascii("system")
  {
  }

  lemma {:induction false} NoMembers(t: TagMap, fields: seq<Field>)
    requires forall f | f in fields :: f !in t
    ensures MembersFrom(t, fields) == []
  {
    if fields != [] {
      NoMembers(t, fields[1..]);
    }
  }

  lemma {:induction false} MembersSplit(t: TagMap, xs: seq<Field>, ys: seq<Field>)
    ensures MembersFrom(t, xs + ys) == MembersFrom(t, xs) + MembersFrom(t, ys)
  {
    if xs == [] {
      assert xs + ys == ys;
    } else {
      assert (xs + ys)[1..] == xs[1..] + ys;
      MembersSplit(t, xs[1..], ys);
    }
  }

  lemma OneMember(t: TagMap, f: Field)
    requires f in t
    ensures MembersFrom(t, [f]) == [(Name(f), t[f])]
  {
    assert [f][1..] == [];
  }

  lemma OperationAndSeed(t: TagMap)
    requires Operation in t && Seed in t && |t| == 2
    ensures MembersFrom(t, SORTED) == [(Name(Operation), t[Operation]), (Name(Seed), t[Seed])]
  {
    hide Name, MembersFrom;
    assert |t.Keys - {Operation, Seed}| == 0;
    assert t.Keys == {Operation, Seed};
    assert SORTED == [ClientId, Configuration] + ([Operation] + ([RunId] + ([Seed] + [SessionId, System])));
    MembersSplit(t, [ClientId, Configuration], [Operation] + ([RunId] + ([Seed] + [SessionId, System])));
    MembersSplit(t, [Operation], [RunId] + ([Seed] + [SessionId, System]));
    MembersSplit(t, [RunId], [Seed] + [SessionId, System]);
    MembersSplit(t, [Seed], [SessionId, System]);
    NoMembers(t, [ClientId, Configuration]);
    NoMembers(t, [RunId]);
    NoMembers(t, [SessionId, System]);
    OneMember(t, Operation);
    OneMember(t, Seed);
  }

  lemma SeedAlone(t: TagMap)
    requires Seed in t && |t| == 1
    ensures MembersFrom(t, SORTED) == [(Name(Seed), t[Seed])]
  {
    hide Name, MembersFrom;
    assert |t.Keys - {Seed}| == 0;
    assert t.Keys == {Seed};
    assert SORTED == [ClientId, Configuration, Operation, RunId] + ([Seed] + [SessionId, System]);
    MembersSplit(t, [ClientId, Configuration, Operation, RunId], [Seed] + [SessionId, System]);
    MembersSplit(t, [Seed], [SessionId, System]);
    NoMembers(t, [ClientId, Configuration, Operation, RunId]);
    NoMembers(t, [SessionId, System]);
    OneMember(t, Seed);
  }

  /** What documents look like: the empty one, one member, two members. */
  lemma DocumentsLiterally()
    ensures Payload(map[]) == Ascii("{}")
    ensures Payload(map[Seed := Num(1)]) == Ascii("{\"seed\":1}")
    ensures Payload(map[Operation := Str(Ascii("read")), Seed := Num(1)])
            == Ascii("{\"operation\":\"read\"") + Ascii(",\"seed\":1}")
  {
    EmptyDocument();
    SeedOnlyDocument();
    TwoMemberDocument();
    hide *;
  }

  lemma EmptyDocument()
    ensures Payload(map[]) == Ascii("{}")
  {
    NoMembers(map[], SORTED);
  }

  lemma SeedOnlyDocument()
    ensures Payload(map[Seed := Num(1)]) == Ascii("{\"seed\":1}")
  {
    var t: TagMap := map[Seed := Num(1)];
    SeedAlone(t);
    SeedMember();
    SeedText();
    hide MembersFrom, EscapeAll, Name, Print, PrintMembers, Ascii;
  }

  lemma SeedText()
    ensures [OPEN] + ([34, 115, 101, 101, 100, 34, 58, 49] + [CLOSE]) == Ascii("{\"seed\":1}")
  {
  }

  lemma SeedMember()
    ensures PrintMembers([(Name(Seed), Num(1))]) == [34, 115, 101, 101, 100, 34, 58, 49]
  {
    SeedPrinted();
    hide EscapeAll, Name, Print;
  }

  lemma SeedPrinted()
    ensures EscapeAll(Name(Seed)) == [115, 101, 101, 100] && Print(Num(1)) == [49]
  {
    SeedName();
    hide EscapeAll, Name;
    EscapePlain([115, 101, 101, 100]);
  }

  lemma SeedName()
    ensures Name(Seed) == [115, 101, 101, 100]
  {
  }

  lemma TwoMemberDocument()
    ensures Payload(map[Operation := Str(Ascii("read")), Seed := Num(1)])
            == Ascii("{\"operation\":\"read\"") + Ascii(",\"seed\":1}")
  {
    var t: TagMap := map[Operation := Str(Ascii("read")), Seed := Num(1)];
    OperationAndSeed(t);
    var first, last := (Name(Operation), t[Operation]), (Name(Seed), t[Seed]);
    LastMember();
    FirstMember();
    hide MembersFrom, Name, Print, EscapeAll, Ascii;
    TwoPrinted(first, last);
  }

  lemma TwoPrinted(first: Member, last: Member)
    ensures PrintObject([first, last])
            == ([OPEN] + ([QUOTE] + (EscapeAll(first.0) + ([QUOTE, COLON] + Print(first.1)))))
               + (([COMMA] + PrintMembers([last])) + [CLOSE])
  {
    hide EscapeAll, Print;
    var ms := [first, last];
    assert ms[1..] == [last];
    var front := [QUOTE] + (EscapeAll(first.0) + ([QUOTE, COLON] + Print(first.1)));
    assert PrintMembers(ms) == front + ([COMMA] + PrintMembers([last]));
    hide PrintMembers;
    assert [OPEN] + ((front + ([COMMA] + PrintMembers([last]))) + [CLOSE])
           == ([OPEN] + front) + (([COMMA] + PrintMembers([last])) + [CLOSE]);
  }

  lemma LastMember()
    ensures ([COMMA] + PrintMembers([(Name(Seed), Num(1))])) + [CLOSE] == Ascii(",\"seed\":1}")
  {
    SeedMember();
    hide PrintMembers, Name;
  }

  lemma FirstMember()
    ensures [OPEN] + ([QUOTE] + (EscapeAll(Name(Operation)) + ([QUOTE, COLON] + Print(Str(Ascii("read"))))))
            == Ascii("{\"operation\":\"read\"")
  {
    OperationPrinted();
    hide EscapeAll, Print, Name;
  }

  lemma OperationPrinted()
    ensures EscapeAll(Name(Operation)) == [111, 112, 101, 114, 97, 116, 105, 111, 110]
    ensures Print(Str(Ascii("read"))) == [34, 114, 101, 97, 100, 34]
  {
    OperationName();
    ReadName();
    hide EscapeAll, Name, Ascii;
    EscapePlain([111, 112, 101, 114, 97, 116, 105, 111, 110]);
    EscapePlain([114, 101, 97, 100]);
  }

  lemma OperationName()
    ensures Name(Operation) == [111, 112, 101, 114, 97, 116, 105, 111, 110]
  {
  }

  lemma ReadName()
    ensures Ascii("read") == [114, 101, 97, 100]
  {
  }

  /** Two tokens, for encoding and for decoding. */
  lemma TokensLiterally(host: Host)
    ensures Token(map[]) == Ascii("e30") && Decode(host, Ascii("e30")) == Success(map[])
    ensures Token(map[Seed := Num(1)]) == Ascii("eyJzZWVkIjoxfQ")
    ensures Decode(host, Ascii("eyJzZWVkIjoxfQ")) == Success(map[Seed := Num(1)])
  {
    EmptyToken();
    SeedOnlyToken();
    PlainTags();
    hide *;
    DecodeToken(host, map[]);
    DecodeToken(host, map[Seed := Num(1)]);
  }

  lemma PlainTags()
    ensures IsNormal(map[]) && IsNormal(map[Seed := Num(1)])
    ensures CanonTags(map[]) == map[] && CanonTags(map[Seed := Num(1)]) == map[Seed := Num(1)]
  {
  }

  lemma EmptyToken()
    ensures Token(map[]) == Ascii("e30")
  {
    EmptyDocument();
    hide Payload, Unpadded;
    assert ToBytes(Payload(map[])) == [123, 125];
    UnpaddedEnd(123, 125);
  }

  lemma SeedOnlyToken()
    ensures Token(map[Seed := Num(1)]) == Ascii("eyJzZWVkIjoxfQ")
  {
    SeedOnlyDocument();
    SeedOnlyBytes(Payload(map[Seed := Num(1)]));
    hide Payload;
    SeedOnlyGroups();
  }

  lemma SeedOnlyBytes(document: Text)
    requires document == Ascii("{\"seed\":1}") && IsAscii(document)
    ensures ToBytes(document) == [123, 34, 115] + ([101, 101, 100] + ([34, 58, 49] + [125]))
  {
  }

  lemma SeedOnlyGroups()
    ensures Unpadded([123, 34, 115] + ([101, 101, 100] + ([34, 58, 49] + [125]))) == Ascii("eyJzZWVkIjoxfQ")
  {
    FourGroups();
    hide Quad, Unpadded;
    UnpaddedEnd(125, 0);
    UnpaddedGroup([34, 58, 49], [125]);
    UnpaddedGroup([101, 101, 100], [34, 58, 49] + [125]);
    UnpaddedGroup([123, 34, 115], [101, 101, 100] + ([34, 58, 49] + [125]));
  }

  lemma UnpaddedGroup(three: Bytes, rest: Bytes)
    requires |three| == 3
    ensures Unpadded(three + rest) == Quad(three[0], three[1], three[2]) + Unpadded(rest)
  {
    hide Quad, Unpadded;
    UnpaddedCons(three + rest);
    assert (three + rest)[3..] == rest;
  }

  lemma FourGroups()
    ensures Quad(123, 34, 115) == [101, 121, 74, 122] && Quad(101, 101, 100) == [90, 87, 86, 107]
    ensures Quad(34, 58, 49) == [73, 106, 111, 120] && Quad(125, 0, 0)[..2] == [102, 81]
  {
  }

  // ---- carriers ----------------------------------------------------------

  const KEY_PREFIX: Text := [115, 107, 45, 98, 101, 110, 99, 104, 45]
  const SHORT_KEY_PREFIX: Text := [98, 101, 110, 99, 104, 45]
  const PATH_PREFIX: Text := [47, 98, 47]
  const SLASH: CodePoint := 47

  function FirstWord(s: Text): (r: Text)
    ensures r <= s
  {
    if s == [] || IsSpace(s[0]) then [] else [s[0]] + FirstWord(s[1..])
  }

  predicate IsLetter(c: CodePoint, lower: CodePoint)
    requires 97 <= lower <= 122
  {
    c == lower || c == lower - 32
  }

  predicate IsBearer(w: Text) {
    |w| == 6 && IsLetter(w[0], 98) && IsLetter(w[1], 101) && IsLetter(w[2], 97)
    && IsLetter(w[3], 114) && IsLetter(w[4], 101) && IsLetter(w[5], 114)
  }

  function KeyOf(header: Text): (r: Text) {
    var s := StripLeft(header);
    var w := FirstWord(s);
    var rest := StripLeft(s[|w|..]);
    if w != [] && rest != [] && IsBearer(w) then Strip(rest) else Strip(header)
  }

  /** `token_from_api_key`. */
  function TokenFromApiKey(header: Option<Text>): (r: Option<Text>) {
    if header.None? || header.value == [] then None
    else
      var key := KeyOf(header.value);
      if KEY_PREFIX <= key then Some(key[|KEY_PREFIX|..])
      else if SHORT_KEY_PREFIX <= key then Some(key[|SHORT_KEY_PREFIX|..])
      else None
  }

  function BeforeSlash(s: Text): (r: Text)
    ensures r <= s && SLASH !in r
    ensures |r| < |s| ==> s[|r|] == SLASH
  {
    if s == [] || s[0] == SLASH then [] else [s[0]] + BeforeSlash(s[1..])
  }

  /** `split_path_token`. */
  function SplitPathToken(path: Text): (r: (Option<Text>, Text)) {
    if PATH_PREFIX <= path then
      var rest := path[3..];
      var token := BeforeSlash(rest);
      if token != [] && |token| < |rest| then (Some(token), [SLASH] + rest[|token| + 1..])
      else (None, path)
    else (None, path)
  }

  /** The prefixes of keys and paths, and the word before a key. */
  lemma CarriersLiterally()
    ensures KEY_PREFIX == Ascii("sk-bench-") && SHORT_KEY_PREFIX == Ascii("bench-") && PATH_PREFIX == Ascii("/b/")
    ensures IsBearer(Ascii("Bearer")) && IsBearer(Ascii("bearer")) && IsBearer(Ascii("BEARER"))
  {
  }

  /** Other keys carry no token. */
  lemma OtherKeys(bearer: Text, key: Text)
    requires IsBearer(bearer) && NoSpace(key) && key != []
    requires !(Ascii("sk-bench-") <= key) && !(Ascii("bench-") <= key)
    ensures TokenFromApiKey(None) == None && TokenFromApiKey(Some([])) == None
    ensures TokenFromApiKey(Some(key)) == None && TokenFromApiKey(Some(bearer + [32] + key)) == None
  {
    CarriersLiterally();
    hide KeyOf;
    KeyWithBearer(bearer, key);
    KeyAlone(key);
  }

  lemma {:induction false} FirstWordOf(w: Text, rest: Text)
    requires NoSpace(w) && (rest != [] ==> IsSpace(rest[0]))
    ensures FirstWord(w + rest) == w
  {
    if w == [] {
      assert w + rest == rest;
    } else {
      assert w[0] in w;
      assert (w + rest)[1..] == w[1..] + rest;
      FirstWordOf(w[1..], rest);
    }
  }

  lemma {:induction false} BeforeSlashOf(w: Text, rest: Text)
    requires SLASH !in w && (rest != [] ==> rest[0] == SLASH)
    ensures BeforeSlash(w + rest) == w
  {
    if w == [] {
      assert w + rest == rest;
    } else {
      assert (w + rest)[1..] == w[1..] + rest;
      BeforeSlashOf(w[1..], rest);
    }
  }

  lemma NoSpaceIsStripped(word: Text)
    requires NoSpace(word)
    ensures Stripped(word)
  {
    if word != [] {
      assert word[0] in word && word[|word| - 1] in word;
    }
  }

  /** The key of an authorization header: what follows the word "bearer", in any case, or else the whole
      header; without the white space around it. */
  lemma KeyExactly(before: Text, word: Text, between: Text, key: Text, after: Text)
    requires AllSpace(before) && AllSpace(between) && between != [] && AllSpace(after)
    requires word != [] && NoSpace(word) && key != [] && Stripped(key)
    ensures KeyOf(before + (word + (between + (key + after)))) == if IsBearer(word) then key else word + (between + key)
    ensures KeyOf(before + (word + after)) == word
  {
    NoSpaceIsStripped(word);
    var rest := between + (key + after);
    assert IsSpace(rest[0]);
    hide IsSpace, IsBearer, StripLeft, StripRight;
    assert (key + after)[0] == key[0] && (word + rest)[0] == word[0] && (word + after)[0] == word[0];
    StripLeftOf(before, word + rest);
    FirstWordOf(word, rest);
    StripLeftOf(between, key + after);
    StripOf([], key, after);
    assert [] + key + after == key + after && (word + rest)[|word|..] == rest;
    WholeHeader(before, word, between, key, after);
    OneWord(before, word, after);
  }

  lemma WholeHeader(before: Text, word: Text, between: Text, key: Text, after: Text)
    requires AllSpace(before) && AllSpace(after) && word != [] && Stripped(word) && key != [] && Stripped(key)
    ensures Strip(before + (word + (between + (key + after)))) == word + (between + key)
  {
    hide IsSpace;
    var whole := word + (between + key);
    assert whole[0] == word[0] && whole[|whole| - 1] == key[|key| - 1];
    assert before + (word + (between + (key + after))) == before + whole + after;
    StripOf(before, whole, after);
  }

  lemma OneWord(before: Text, word: Text, after: Text)
    requires AllSpace(before) && AllSpace(after) && word != [] && NoSpace(word) && Stripped(word)
    ensures KeyOf(before + (word + after)) == word
  {
    assert after != [] ==> IsSpace(after[0]);
    hide IsSpace, IsBearer, StripLeft, StripRight;
    assert (word + after)[0] == word[0];
    StripLeftOf(before, word + after);
    FirstWordOf(word, after);
    StripLeftOf(after, []);
    assert after + [] == after && (word + after)[|word|..] == after;
    assert before + (word + after) == before + word + after;
    StripOf(before, word, after);
  }

  lemma KeyWithBearer(bearer: Text, key: Text)
    requires IsBearer(bearer) && NoSpace(key) && key != []
    ensures KeyOf(bearer + [32] + key) == key
  {
    assert NoSpace(bearer);
    NoSpaceIsStripped(key);
    assert IsSpace(32);
    hide IsSpace, KeyOf, NoSpace, Stripped;
    KeyExactly([], bearer, [32], key, []);
    assert [] + (bearer + ([32] + (key + []))) == bearer + [32] + key;
  }

  lemma KeyAlone(key: Text)
    requires NoSpace(key) && key != []
    ensures KeyOf(key) == key
  {
    NoSpaceIsStripped(key);
    hide IsSpace, KeyOf, NoSpace, Stripped;
    OneWord([], key, []);
    assert [] + (key + []) == key;
  }

  /** A token survives both forms of the authorization header, with either key prefix. */
  lemma TokenSurvivesKey(bearer: Text, token: Text)
    requires IsBearer(bearer) && NoSpace(token)
    ensures TokenFromApiKey(Some(bearer + [32] + (KEY_PREFIX + token))) == Some(token)
    ensures TokenFromApiKey(Some(KEY_PREFIX + token)) == Some(token)
    ensures TokenFromApiKey(Some(bearer + [32] + (SHORT_KEY_PREFIX + token))) == Some(token)
    ensures TokenFromApiKey(Some(SHORT_KEY_PREFIX + token)) == Some(token)
  {
    hide KeyOf;
    var long, short := KEY_PREFIX + token, SHORT_KEY_PREFIX + token;
    assert NoSpace(long) && NoSpace(short);
    KeyWithBearer(bearer, long);
    KeyWithBearer(bearer, short);
    KeyAlone(long);
    KeyAlone(short);
    assert long[|KEY_PREFIX|..] == token && short[|SHORT_KEY_PREFIX|..] == token;
    assert short[0] == 98;
  }

  lemma SplitBody(path: Text, body: Text, token: Text, rest: Text)
    requires PATH_PREFIX <= path && body == path[3..]
    requires SplitPathToken(path) == (Some(token), [SLASH] + rest)
    ensures token != [] && SLASH !in token && path == PATH_PREFIX + token + ([SLASH] + rest)
  {
    var found := BeforeSlash(body);
    assert found == token && body == found + ([SLASH] + body[|found| + 1..]);
    assert rest == ([SLASH] + rest)[1..] == body[|found| + 1..];
    assert path == PATH_PREFIX + body;
    Assoc(PATH_PREFIX, token, [SLASH] + rest);
  }

  /** Splitting a path finds a token exactly in the paths `/b/<token>/...` with a token that is not
      empty and has no slash, and then loses nothing; every other path is returned unchanged. */
  lemma SplitPathExactly(path: Text, token: Text, rest: Text)
    ensures SplitPathToken(path) == (Some(token), [SLASH] + rest)
            <==> token != [] && SLASH !in token && path == PATH_PREFIX + token + ([SLASH] + rest)
    ensures SplitPathToken(path).0.None? ==> SplitPathToken(path).1 == path
  {
    hide BeforeSlash;
    if PATH_PREFIX <= path {
      if SplitPathToken(path) == (Some(token), [SLASH] + rest) {
        SplitBody(path, path[3..], token, rest);
      }
    }
    if token != [] && SLASH !in token && path == PATH_PREFIX + token + ([SLASH] + rest) {
      assert path[3..] == token + ([SLASH] + rest);
      BeforeSlashOf(token, [SLASH] + rest);
      assert path[3..][|token| + 1..] == rest;
    }
  }

  lemma TokenCharsArePlain(token: Text)
    requires forall c | c in token :: IsTokenChar(c)
    ensures NoSpace(token) && SLASH !in token
  {
    forall c | c in token ensures !IsSpace(c) && c != SLASH {
      assert IsTokenChar(c);
    }
  }

  /** End to end: the tags put into an API key or a URL path are the tags the proxy reads there. */
  lemma TagsArrive(host: Host, t: TagMap, bearer: Text, rest: Text)
    requires IsNormal(t) && !HasSplitTag(t) && IsBearer(bearer)
    ensures var key := TokenFromApiKey(Some(bearer + [32] + (KEY_PREFIX + Token(t))));
            key.Some? && Decode(host, key.value) == Success(t)
    ensures var (token, path) := SplitPathToken(PATH_PREFIX + Token(t) + ([SLASH] + rest));
            token.Some? && Decode(host, token.value) == Success(t) && path == [SLASH] + rest
  {
    DecodeToken(host, t);
    CanonTagsFixesExactly(t);
    TokenCharsArePlain(Token(t));
    hide *;
    TokenSurvivesKey(bearer, Token(t));
    SplitPathExactly(PATH_PREFIX + Token(t) + ([SLASH] + rest), Token(t), rest);
  }
}
