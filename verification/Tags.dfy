/** Tag fields and the validation that every tag map goes through. */
module Tags {
  import opened Common
  import opened Text
  import opened TagJson

  datatype Field = System | Configuration | Seed | SessionId | Operation | RunId | ClientId

  const FIELDS: seq<Field> := [System, Configuration, Seed, SessionId, Operation, RunId, ClientId]

  /** `OverflowError` is what `int()` raises for an infinite number; no handler around validation names it. */
  datatype TagError = TagError | OverflowError

  type RawTags = map<Text, RawValue>
  type TagMap = map<Field, Scalar>

  const MAX_TAG_LEN := 256

  function Name(f: Field): (r: Text) {
    match f
    case System => Ascii("system")
    case Configuration => Ascii("configuration")
    case Seed => Ascii("seed")
    case SessionId => Ascii("session_id")
    case Operation => Ascii("operation")
    case RunId => Ascii("run_id")
    case ClientId => Ascii("client_id")
  }

  function FieldNamed(t: Text): (f: Option<Field>)
    ensures f.Some? ==> Name(f.value) == t
  {
    if t == Name(System) then Some(System)
    else if t == Name(Configuration) then Some(Configuration)
    else if t == Name(Seed) then Some(Seed)
    else if t == Name(SessionId) then Some(SessionId)
    else if t == Name(Operation) then Some(Operation)
    else if t == Name(RunId) then Some(RunId)
    else if t == Name(ClientId) then Some(ClientId)
    else None
  }

  lemma NamesDiffer(f: Field, g: Field)
    ensures Name(f) == Name(g) ==> f == g
    ensures FieldNamed(Name(f)) == Some(f)
    ensures forall i | 0 <= i < |Name(f)| :: Name(f)[i] < 128
  {
    assert Name(System)[0] == 's' as int as CodePoint && Name(RunId)[0] == 'r' as int as CodePoint;
    assert Name(Operation)[0] == 'o' as int as CodePoint && Name(ClientId)[0] == 'c' as int as CodePoint;
  }

  predicate AllowedOperation(t: Text) {
    || t == Ascii("write") || t == Ascii("consolidate") || t == Ascii("read") || t == Ascii("embed")
    || t == Ascii("answer") || t == Ascii("judge") || t == Ascii("settle") || t == Ascii("meta") || t == Ascii("warmup")
  }

  // ---- int() of a string -------------------------------------------------

  const UNDERSCORE: CodePoint := 95

  predicate IsNumeral(s: Text) {
    && s != [] && IsDigit(s[0]) && IsDigit(s[|s| - 1])
    && (forall i | 0 <= i < |s| :: IsDigit(s[i]) || s[i] == UNDERSCORE)
    && (forall i | 0 <= i < |s| - 1 :: !(s[i] == UNDERSCORE && s[i + 1] == UNDERSCORE))
  }

  function DropUnderscores(s: Text): (r: Text)
    ensures (forall i | 0 <= i < |s| :: IsDigit(s[i]) || s[i] == UNDERSCORE) ==> AllDigits(r)
    ensures AllDigits(s) ==> r == s
  {
    if s == [] then []
    else (if s[0] == UNDERSCORE then [] else [s[0]]) + DropUnderscores(s[1..])
  }

  /** `int(text)` for ASCII digits. */
  function ParseInt(text: Text): (n: Option<int>) {
    var s := Strip(text);
    var signed := s != [] && (s[0] == 45 || s[0] == 43);
    var body := if signed then s[1..] else s;
    if !IsNumeral(body) then None
    else
      var v := Value(DropUnderscores(body)) as int;
      Some(if signed && s[0] == 45 then 0 - v else v)
  }

  /** Digits with single underscores between them. */
  predicate DigitGroups(s: Text) {
    && s != [] && 48 <= s[0] <= 57 && 48 <= s[|s| - 1] <= 57
    && (forall i | 0 <= i < |s| :: 48 <= s[i] <= 57 || s[i] == 95)
    && (forall i | 0 < i < |s| :: s[i] == 95 ==> s[i - 1] != 95)
  }

  function Denoted(sign: Text, body: Text): (n: int)
    requires DigitGroups(body)
  {
    var n: int := Value(DropUnderscores(body));
    if sign == [45] then 0 - n else n
  }

  ghost predicate SplitsAs(text: Text, pre: Text, sign: Text, body: Text, post: Text, n: int) {
    && AllSpace(pre) && AllSpace(post) && text == pre + (sign + body) + post
    && (sign == [] || sign == [43] || sign == [45]) && DigitGroups(body) && Denoted(sign, body) == n
  }

  /** The texts that denote an integer, and which: white space around an optional sign and digits, with
      single underscores allowed between digits. */
  lemma ParseIntExactly(text: Text, n: int)
    ensures ParseInt(text) == Some(n) <==> exists pre, sign, body, post :: SplitsAs(text, pre, sign, body, post, n)
  {
    hide ParseInt, SplitsAs;
    if ParseInt(text) == Some(n) {
      var pre, sign, body, post := NumeralSplits(text, n);
    }
    if exists pre, sign, body, post :: SplitsAs(text, pre, sign, body, post, n) {
      var pre, sign, body, post :| SplitsAs(text, pre, sign, body, post, n);
      SplitIsNumeral(text, pre, sign, body, post, n);
    }
  }

  lemma GroupsAreNumeral(s: Text)
    ensures DigitGroups(s) <==> IsNumeral(s)
  {
    if IsNumeral(s) {
      forall i | 0 < i < |s| ensures s[i] == 95 ==> s[i - 1] != 95 {
        assert !(s[i - 1] == UNDERSCORE && s[i - 1 + 1] == UNDERSCORE);
      }
    }
  }

  /** The value of what is left when the white space is off. */
  function ParseStripped(s: Text): (n: Option<int>) {
    var signed := s != [] && (s[0] == 45 || s[0] == 43);
    var body := if signed then s[1..] else s;
    if !DigitGroups(body) then None else Some(Denoted(if signed then s[..1] else [], body))
  }

  lemma ParseOfStripped(text: Text)
    ensures ParseInt(text) == ParseStripped(Strip(text))
  {
    var s := Strip(text);
    hide Strip, Value, DigitGroups, IsNumeral, DropUnderscores;
    GroupsAreNumeral(s);
    if s != [] {
      GroupsAreNumeral(s[1..]);
    }
  }

  lemma NumeralSplits(text: Text, n: int) returns (pre: Text, sign: Text, body: Text, post: Text)
    requires ParseInt(text) == Some(n)
    ensures SplitsAs(text, pre, sign, body, post, n)
  {
    ParseOfStripped(text);
    pre, post := StripExactly(text);
    var s := Strip(text);
    hide ParseInt, Strip, AllSpace, DigitGroups, Denoted;
    var signed := s != [] && (s[0] == 45 || s[0] == 43);
    sign := if signed then s[..1] else [];
    body := if signed then s[1..] else s;
    assert s == sign + body;
  }

  lemma NumeralStripped(sign: Text, body: Text)
    requires (sign == [] || sign == [43] || sign == [45]) && DigitGroups(body)
    ensures Stripped(sign + body) && ParseStripped(sign + body) == Some(Denoted(sign, body))
  {
    var s := sign + body;
    assert s[|s| - 1] == body[|body| - 1] && s[0] == (if sign == [] then body[0] else sign[0]);
    assert Stripped(s);
    hide Denoted, IsSpace;
    if sign != [] {
      assert s[1..] == body && s[..1] == sign;
    } else {
      assert s == body;
    }
  }

  lemma SplitIsNumeral(text: Text, pre: Text, sign: Text, body: Text, post: Text, n: int)
    requires SplitsAs(text, pre, sign, body, post, n)
    ensures ParseInt(text) == Some(n)
  {
    ParseOfStripped(text);
    hide ParseInt, Strip, AllSpace, Denoted, DigitGroups, ParseStripped, Stripped;
    NumeralStripped(sign, body);
    assert sign + body != [] by { BodyNotEmpty(body); }
    StripOf(pre, sign + body, post);
  }

  lemma BodyNotEmpty(body: Text)
    requires DigitGroups(body)
    ensures body != []
  {
  }

  lemma DecimalIsNumeral(m: nat)
    ensures IsNumeral(Decimal(m)) && DropUnderscores(Decimal(m)) == Decimal(m)
  {
    hide Decimal;
  }

  /** A seed written as text and read back is the same seed. */
  lemma ParseIntOfIntText(n: int)
    ensures ParseInt(IntText(n)) == Some(n)
  {
    hide Decimal, Value, StripLeft, StripRight, DropUnderscores;
    var m: nat := if n < 0 then 0 - n else n;
    var d, t := Decimal(m), IntText(n);
    DecimalIsNumeral(m);
    hide IsNumeral;
    assert NoSpace(t) by {
      forall c | c in t ensures !IsSpace(c) {
        assert c == 45 || c in d;
      }
    }
    StripNothing(t);
    ValueOfDecimal(m);
    if n < 0 {
      assert t[1..] == d;
    } else {
      assert IsDigit(t[0]);
    }
  }

  // ---- normalisation -----------------------------------------------------

  /** `str(value)`. */
  function StrOf(v: RawValue): (r: Text) {
    match v
    case Plain(Str(s)) => s
    case Plain(Num(n)) => IntText(n)
    case Plain(Bool(b)) => if b then Ascii("True") else Ascii("False")
    case Plain(Null) => Ascii("None")
    case Fraction(Finite(_, text)) => text
    case Fraction(Infinite(negative)) => if negative then Ascii("-inf") else Ascii("inf")
    case Fraction(NotANumber) => Ascii("nan")
    case Nested(text) => text
  }

  /** `int(value)`. */
  function SeedOf(v: RawValue): (r: Result<int, TagError>) {
    match v
    case Plain(Str(s)) => (match ParseInt(s) case None => Failure(TagError) case Some(n) => Success(n))
    case Plain(Num(n)) => Success(n)
    case Plain(Bool(b)) => Success(if b then 1 else 0)
    case Fraction(Finite(whole, _)) => Success(whole)
    case Fraction(Infinite(_)) => Failure(OverflowError)
    case _ => Failure(TagError)
  }

  type AllowList = Option<set<Text>>

  /** One entry: None when it is dropped, the kept value otherwise. */
  function NormalValue(f: Field, v: RawValue, allowed: AllowList): (r: Result<Option<Scalar>, TagError>) {
    if v == Plain(Null) then Success(None)
    else if f.Seed? then (match SeedOf(v) case Failure(e) => Failure(e) case Success(n) => Success(Some(Num(n))))
    else
      var s := StrOf(v);
      if s == [] then Success(None)
      else if |s| > MAX_TAG_LEN then Failure(TagError)
      else if f.Operation? && !AllowedOperation(s) then Failure(TagError)
      else if f.System? && allowed.Some? && s !in allowed.value then Failure(TagError)
      else Success(Some(Str(s)))
  }

  /** What validation makes of one entry, case by case. */
  lemma EntryExactly(f: Field, v: RawValue, allowed: AllowList)
    ensures v == Plain(Null) ==> NormalValue(f, v, allowed) == Success(None)
    ensures f.Seed? ==>
              match v
              case Plain(Null) => true
              case Plain(Bool(b)) => NormalValue(f, v, allowed) == Success(Some(Num(if b then 1 else 0)))
              case Plain(Num(n)) => NormalValue(f, v, allowed) == Success(Some(Num(n)))
              case Plain(Str(s)) =>
                NormalValue(f, v, allowed) == (if ParseInt(s).Some? then Success(Some(Num(ParseInt(s).value))) else Failure(TagError))
              case Fraction(Finite(whole, _)) => NormalValue(f, v, allowed) == Success(Some(Num(whole)))
              case Fraction(Infinite(_)) => NormalValue(f, v, allowed) == Failure(OverflowError)
              case Fraction(NotANumber) => NormalValue(f, v, allowed) == Failure(TagError)
              case Nested(_) => NormalValue(f, v, allowed) == Failure(TagError)
    ensures !f.Seed? && v != Plain(Null) ==>
              var s := match v
                case Plain(Str(s)) => s
                case Plain(Num(n)) => IntText(n)
                case Plain(Bool(b)) => Ascii(if b then "True" else "False")
                case Fraction(Finite(_, text)) => text
                case Fraction(Infinite(negative)) => Ascii(if negative then "-inf" else "inf")
                case Fraction(NotANumber) => Ascii("nan")
                case Nested(text) => text
                case Plain(Null) => [];
              var refused := |s| > 256 || (f.Operation? && s !in Operations()) || (f.System? && allowed.Some? && s !in allowed.value);
              NormalValue(f, v, allowed) == if s == [] then Success(None) else if refused then Failure(TagError) else Success(Some(Str(s)))
  {
    hide Ascii, IntText, ParseInt;
  }

  function Operations(): (r: set<Text>) {
    {Ascii("write"), Ascii("consolidate"), Ascii("read"), Ascii("embed"), Ascii("answer"), Ascii("judge"), Ascii("settle"),
     Ascii("meta"), Ascii("warmup")}
  }

  predicate Accepts(raw: RawTags, allowed: AllowList) {
    forall k | k in raw :: FieldNamed(k).Some? && NormalValue(FieldNamed(k).value, raw[k], allowed).Success?
  }

  predicate Keeps(raw: RawTags, allowed: AllowList, f: Field) {
    && Name(f) in raw
    && NormalValue(f, raw[Name(f)], allowed).Success?
    && NormalValue(f, raw[Name(f)], allowed).value.Some?
  }

  function KeptTags(raw: RawTags, allowed: AllowList): (r: TagMap) {
    map f | f in FIELDS && Keeps(raw, allowed, f) :: NormalValue(f, raw[Name(f)], allowed).value.value
  }

  /** The normal form of a map that is accepted. */
  function Normalize(raw: RawTags, allowed: AllowList): (r: Option<TagMap>) {
    if Accepts(raw, allowed) then Some(KeptTags(raw, allowed)) else None
  }

  // ---- which error: entries in order -------------------------------------

  /** Later members overwrite earlier ones of the same name. */
  function Object(ms: seq<RawMember>): (r: RawTags) {
    if ms == [] then map[]
    else Object(ms[..|ms| - 1])[ms[|ms| - 1].0 := ms[|ms| - 1].1]
  }

  predicate DistinctNames(entries: seq<RawMember>) {
    forall i, j | 0 <= i < j < |entries| :: entries[i].0 != entries[j].0
  }

  function EntryFault(e: RawMember, allowed: AllowList): (r: Option<TagError>) {
    match FieldNamed(e.0)
    case None => Some(TagError)
    case Some(f) => match NormalValue(f, e.1, allowed) case Failure(error) => Some(error) case Success(_) => None
  }

  /** The error of the first entry that has one. */
  function FirstFault(entries: seq<RawMember>, allowed: AllowList): (r: Option<TagError>) {
    if entries == [] then None
    else if EntryFault(entries[0], allowed).Some? then EntryFault(entries[0], allowed)
    else FirstFault(entries[1..], allowed)
  }

  /** What `normalize_tags` does with entries in this order. */
  function Normalized(entries: seq<RawMember>, allowed: AllowList): (r: Result<TagMap, TagError>) {
    match FirstFault(entries, allowed)
    case Some(e) => Failure(e)
    case None => Success(KeptTags(Object(entries), allowed))
  }

  method NormalizeTags(entries: seq<RawMember>, allowed: AllowList) returns (r: Result<TagMap, TagError>)
    requires DistinctNames(entries)
    ensures r == Normalized(entries, allowed)
  {
    hide NormalValue, Name, FieldNamed, AllowedOperation, Object, FirstFault, EntryFault;
    var out: TagMap := map[];
    NoEntries(allowed);
    var i := 0;
    while i < |entries|
      invariant 0 <= i <= |entries|
      invariant FirstFault(entries[..i], allowed) == None
      invariant forall f :: f in out <==> Keeps(Object(entries[..i]), allowed, f)
      invariant forall f | f in out :: out[f] == NormalValue(f, Object(entries[..i])[Name(f)], allowed).value.value
    {
      var (key, value) := entries[i];
      NextEntry(entries, i, allowed);
      match FieldNamed(key) {
        case None => return Failure(TagError);
        case Some(f) =>
          match NormalValue(f, value, allowed) {
            case Failure(e) => return Failure(e);
            case Success(None) =>
            case Success(Some(v)) => out := out[f := v];
          }
      }
      i := i + 1;
    }
    assert entries[..i] == entries;
    AllFieldsListed();
    r := Success(out);
    assert out == Normalized(entries, allowed).value;
  }

  lemma NoEntries(allowed: AllowList)
    ensures forall entries: seq<RawMember> :: entries[..0] == []
    ensures FirstFault([], allowed) == None && Object([]) == map[]
  {
  }

  lemma {:induction false} FaultPrefix(entries: seq<RawMember>, i: nat, allowed: AllowList)
    requires i < |entries| && FirstFault(entries[..i], allowed) == None
    ensures EntryFault(entries[i], allowed).Some? ==> FirstFault(entries, allowed) == EntryFault(entries[i], allowed)
    ensures EntryFault(entries[i], allowed).None? ==> FirstFault(entries[..i + 1], allowed) == None
  {
    hide EntryFault;
    if i == 0 {
      assert entries[..1][0] == entries[0] && entries[..1][1..] == [];
    } else {
      assert entries[..i][0] == entries[0] && entries[..i][1..] == entries[1..][..i - 1];
      assert entries[..i + 1][0] == entries[0] && entries[..i + 1][1..] == entries[1..][..i];
      FaultPrefix(entries[1..], i - 1, allowed);
    }
  }

  /** One more entry of distinct names: its fault comes next, and its value joins the map. */
  lemma {:induction false} NextEntry(entries: seq<RawMember>, i: nat, allowed: AllowList)
    requires i < |entries| && DistinctNames(entries) && FirstFault(entries[..i], allowed) == None
    ensures match FieldNamed(entries[i].0)
            case None => FirstFault(entries, allowed) == Some(TagError)
            case Some(f) =>
              && (NormalValue(f, entries[i].1, allowed).Failure? ==>
                    FirstFault(entries, allowed) == Some(NormalValue(f, entries[i].1, allowed).error))
              && (NormalValue(f, entries[i].1, allowed).Success? ==> FirstFault(entries[..i + 1], allowed) == None)
              && Name(f) == entries[i].0 && Name(f) !in Object(entries[..i])
              && forall g | g != f :: Name(g) != entries[i].0
    ensures Object(entries[..i + 1]) == Object(entries[..i])[entries[i].0 := entries[i].1]
  {
    hide NormalValue, Name, FieldNamed;
    FaultPrefix(entries, i, allowed);
    assert entries[..i + 1][..i] == entries[..i];
    ObjectNames(entries[..i], entries[i].0);
    if FieldNamed(entries[i].0).Some? {
      var f := FieldNamed(entries[i].0).value;
      forall g | g != f ensures Name(g) != Name(f) { NamesDiffer(g, f); }
    }
  }

  lemma {:induction false} ObjectNames(ms: seq<RawMember>, k: Text)
    ensures k in Object(ms) <==> exists i | 0 <= i < |ms| :: ms[i].0 == k
    decreases |ms|
  {
    if ms != [] {
      var init, last := ms[..|ms| - 1], ms[|ms| - 1];
      ObjectNames(init, k);
      assert forall i | 0 <= i < |init| :: init[i] == ms[i];
      if last.0 == k {
        assert ms[|ms| - 1].0 == k;
      }
    }
  }

  lemma {:induction false} ObjectValues(ms: seq<RawMember>, i: nat)
    requires DistinctNames(ms) && i < |ms|
    ensures ms[i].0 in Object(ms) && Object(ms)[ms[i].0] == ms[i].1
    decreases |ms|
  {
    var init, last := ms[..|ms| - 1], ms[|ms| - 1];
    if i < |init| {
      ObjectValues(init, i);
      assert init[i] == ms[i] && ms[i].0 != last.0;
    }
  }

  predicate InfiniteSeed(e: RawMember) {
    FieldNamed(e.0) == Some(Seed) && e.1.Fraction? && e.1.f.Infinite?
  }

  lemma OnlyInfiniteSeedsOverflow(e: RawMember, allowed: AllowList)
    ensures EntryFault(e, allowed) == Some(OverflowError) <==> InfiniteSeed(e)
  {
    hide FieldNamed, AllowedOperation, ParseInt;
  }

  lemma {:induction false} FirstFaultExactly(entries: seq<RawMember>, allowed: AllowList)
    ensures FirstFault(entries, allowed).None? <==> forall i | 0 <= i < |entries| :: EntryFault(entries[i], allowed).None?
    ensures FirstFault(entries, allowed) == Some(OverflowError) <==>
            exists i | 0 <= i < |entries| :: InfiniteSeed(entries[i]) && FirstFault(entries[..i], allowed) == None
  {
    hide EntryFault, InfiniteSeed;
    if entries != [] {
      var rest := entries[1..];
      FirstFaultExactly(rest, allowed);
      OnlyInfiniteSeedsOverflow(entries[0], allowed);
      assert forall i | 0 < i < |entries| :: entries[i] == rest[i - 1];
      assert entries[..0] == [] && FirstFault([], allowed) == None;
      forall i | 0 <= i < |rest|
        ensures FirstFault(entries[..i + 1], allowed) == None
                <==> EntryFault(entries[0], allowed).None? && FirstFault(rest[..i], allowed) == None
        ensures rest[i] == entries[i + 1]
      {
        assert entries[..i + 1][0] == entries[0] && entries[..i + 1][1..] == rest[..i];
      }
      if EntryFault(entries[0], allowed).None? && FirstFault(entries, allowed) == Some(OverflowError) {
        var i :| 0 <= i < |rest| && InfiniteSeed(rest[i]) && FirstFault(rest[..i], allowed) == None;
        assert InfiniteSeed(entries[i + 1]) && FirstFault(entries[..i + 1], allowed) == None;
      }
    }
  }

  /** Validation in order accepts exactly what it accepts as a map, with the same result; and it raises
      an overflow exactly when an infinite seed is the first entry to be refused. */
  lemma NormalizedExactly(entries: seq<RawMember>, allowed: AllowList)
    requires DistinctNames(entries)
    ensures Normalized(entries, allowed).Success? <==> Normalize(Object(entries), allowed).Some?
    ensures Normalized(entries, allowed).Success? ==>
              Normalized(entries, allowed).value == Normalize(Object(entries), allowed).value
    ensures Normalized(entries, allowed) == Failure(OverflowError) <==>
            exists i | 0 <= i < |entries| :: InfiniteSeed(entries[i]) && Normalized(entries[..i], allowed).Success?
  {
    FirstFaultExactly(entries, allowed);
    AcceptsInOrder(entries, allowed);
    hide FirstFault, Object, Accepts, KeptTags, EntryFault, InfiniteSeed;
    forall i | 0 <= i < |entries|
      ensures Normalized(entries[..i], allowed).Success? <==> FirstFault(entries[..i], allowed) == None
    {
    }
  }

  lemma AcceptsInOrder(entries: seq<RawMember>, allowed: AllowList)
    requires DistinctNames(entries)
    ensures Accepts(Object(entries), allowed) <==> forall i | 0 <= i < |entries| :: EntryFault(entries[i], allowed).None?
  {
    hide NormalValue, FieldNamed, Name;
    var o := Object(entries);
    forall i | 0 <= i < |entries| ensures entries[i].0 in o && o[entries[i].0] == entries[i].1 {
      ObjectValues(entries, i);
    }
    forall k | k in o ensures exists i :: 0 <= i < |entries| && entries[i].0 == k {
      ObjectNames(entries, k);
    }
    hide Object;
  }

  /** Entries without floating-point numbers, such as those of headers, are refused with a TagError only. */
  lemma PlainNeverOverflows(entries: seq<RawMember>, allowed: AllowList)
    requires DistinctNames(entries) && forall i | 0 <= i < |entries| :: !entries[i].1.Fraction?
    ensures Normalized(entries, allowed) != Failure(OverflowError)
  {
    NormalizedExactly(entries, allowed);
    hide Normalized;
  }

  lemma AllFieldsListed()
    ensures forall f: Field :: f in FIELDS
  {
    forall f: Field ensures f in FIELDS {
      match f
      case System => assert FIELDS[0] == System;
      case Configuration => assert FIELDS[1] == Configuration;
      case Seed => assert FIELDS[2] == Seed;
      case SessionId => assert FIELDS[3] == SessionId;
      case Operation => assert FIELDS[4] == Operation;
      case RunId => assert FIELDS[5] == RunId;
      case ClientId => assert FIELDS[6] == ClientId;
    }
  }

  /** The maps that validation leaves alone. */
  predicate IsNormalValue(f: Field, v: Scalar) {
    if f.Seed? then v.Num?
    else v.Str? && 1 <= |v.s| <= MAX_TAG_LEN && (f.Operation? ==> AllowedOperation(v.s))
  }

  predicate IsNormal(t: TagMap) {
    forall f | f in t :: IsNormalValue(f, t[f])
  }

  /** A validated map seen as input again. */
  function AsRaw(t: TagMap): (r: RawTags)
    ensures forall f | f in t :: Name(f) in r && r[Name(f)] == Plain(t[f])
    ensures forall k | k in r :: FieldNamed(k).Some? && FieldNamed(k).value in t && r[k] == Plain(t[FieldNamed(k).value])
  {
    assert forall f, g | Name(f) == Name(g) :: f == g by {
      forall f, g | Name(f) == Name(g) ensures f == g { NamesDiffer(f, g); }
    }
    assert forall f :: FieldNamed(Name(f)) == Some(f) by {
      forall f ensures FieldNamed(Name(f)) == Some(f) { NamesDiffer(f, f); }
    }
    map f | f in t :: Name(f) := Plain(t[f])
  }

  /** Only systems on the allow-list pass, when there is one. */
  predicate SystemAllowed(t: TagMap, allowed: AllowList) {
    allowed.Some? && System in t && t[System].Str? ==> t[System].s in allowed.value
  }

  lemma NormalizeGivesNormal(raw: RawTags, allowed: AllowList)
    requires Normalize(raw, allowed).Some?
    ensures IsNormal(Normalize(raw, allowed).value)
    ensures SystemAllowed(Normalize(raw, allowed).value, allowed)
  {
  }

  lemma SettledValue(t: TagMap, f: Field, allowed: AllowList)
    requires f in t && IsNormalValue(f, t[f])
    ensures NormalValue(f, Plain(t[f]), allowed)
            == if f.System? && !SystemAllowed(t, allowed) then Failure(TagError) else Success(Some(t[f]))
  {
    hide AllowedOperation;
  }

  /** A name that is not one of the seven fields is refused, whatever its value. */
  lemma UnknownRefused(raw: RawTags, allowed: AllowList, k: Text)
    requires k in raw
    requires k != Ascii("system") && k != Ascii("configuration") && k != Ascii("seed") && k != Ascii("session_id")
    requires k != Ascii("operation") && k != Ascii("run_id") && k != Ascii("client_id")
    ensures Normalize(raw, allowed).None?
    ensures EntryFault((k, raw[k]), allowed) == Some(TagError)
  {
    hide Ascii, NormalValue;
  }

  /** Validation is idempotent: a normal map is either returned unchanged, or rejected for one reason
      only, a system that is not on the allow-list. */
  lemma NormalizeSettles(t: TagMap, allowed: AllowList)
    requires IsNormal(t)
    ensures Normalize(AsRaw(t), allowed) == if SystemAllowed(t, allowed) then Some(t) else None
  {
    SettledAccepts(t, allowed);
    if SystemAllowed(t, allowed) {
      SettledKept(t, allowed);
    }
    hide Accepts, KeptTags, IsNormal, SystemAllowed;
  }

  lemma SettledKept(t: TagMap, allowed: AllowList)
    requires IsNormal(t) && SystemAllowed(t, allowed)
    ensures KeptTags(AsRaw(t), allowed) == t
  {
    AllFieldsListed();
    hide NormalValue, IsNormal, SystemAllowed, Name, Keeps;
    forall f
      ensures Keeps(AsRaw(t), allowed, f) <==> f in t
      ensures f in t ==> NormalValue(f, AsRaw(t)[Name(f)], allowed) == Success(Some(t[f]))
    {
      SettledKeeps(t, f, allowed);
    }
    var kept := KeptTags(AsRaw(t), allowed);
    assert forall f :: f in kept <==> f in t;
  }

  lemma SettledKeeps(t: TagMap, f: Field, allowed: AllowList)
    requires IsNormal(t) && SystemAllowed(t, allowed)
    ensures Keeps(AsRaw(t), allowed, f) <==> f in t
    ensures f in t ==> NormalValue(f, AsRaw(t)[Name(f)], allowed) == Success(Some(t[f]))
  {
    NamesDiffer(f, f);
    hide Name, FieldNamed, NormalValue;
    if f in t {
      SettledValue(t, f, allowed);
    }
  }

  lemma SettledAccepts(t: TagMap, allowed: AllowList)
    requires IsNormal(t)
    ensures Accepts(AsRaw(t), allowed) <==> SystemAllowed(t, allowed)
  {
    var raw := AsRaw(t);
    forall f ensures FieldNamed(Name(f)) == Some(f) { NamesDiffer(f, f); }
    hide Name, FieldNamed, NormalValue;
    forall f | f in t
      ensures NormalValue(f, Plain(t[f]), allowed)
              == if f.System? && !SystemAllowed(t, allowed) then Failure(TagError) else Success(Some(t[f]))
    {
      SettledValue(t, f, allowed);
    }
    hide IsNormalValue, SystemAllowed;
    if !SystemAllowed(t, allowed) {
      SystemRefused(t, allowed);
      assert Name(System) in raw;
    }
  }

  lemma SystemRefused(t: TagMap, allowed: AllowList)
    requires !SystemAllowed(t, allowed)
    ensures System in t
  {
  }

  lemma NormalizeIdempotent(raw: RawTags, allowed: AllowList)
    requires Normalize(raw, allowed).Some?
    ensures Normalize(AsRaw(Normalize(raw, allowed).value), allowed) == Normalize(raw, allowed)
    ensures Normalize(AsRaw(Normalize(raw, allowed).value), None) == Normalize(raw, allowed)
  {
    NormalizeGivesNormal(raw, allowed);
    NormalizeSettles(Normalize(raw, allowed).value, allowed);
    NormalizeSettles(Normalize(raw, allowed).value, None);
  }
}
