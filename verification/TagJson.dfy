/** JSON of the token codec: the ASCII-only compact printer for flat objects, and a reader for any object
    (RFC 8259 sections 2 to 7), which keeps nested values as text. */
module TagJson {
  import opened Common
  import opened Text

  datatype Scalar = Null | Bool(b: bool) | Num(n: int) | Str(s: Text)

  type Member = (Text, Scalar)

  /** A floating-point number, as far as tags look at it: truncated, and as text. */
  datatype Float = Finite(whole: int, text: Text) | Infinite(negative: bool) | NotANumber

  /** What a document can hold besides: a number with a fraction or an exponent, or a nested value, as
      text. */
  datatype RawValue = Plain(v: Scalar) | Fraction(f: Float) | Nested(text: Text)

  type RawMember = (Text, RawValue)

  /** How the host language rounds a decimal with a fraction or an exponent, and how it shows the value of
      a nested document as text, unless that is nested too deeply to be read. */
  datatype Host = Host(round: Text -> Float, show: Text -> Option<Text>)

  const QUOTE: CodePoint := 34
  const BACKSLASH: CodePoint := 92
  const COMMA: CodePoint := 44
  const COLON: CodePoint := 58
  const OPEN: CodePoint := 123
  const CLOSE: CodePoint := 125
  const OPEN_LIST: CodePoint := 91
  const CLOSE_LIST: CodePoint := 93

  /** A parser yields a value and the unread rest. */
  datatype Parsed<+T> = Ok(value: T, rest: Text) | Bad

  // ---- printing ----------------------------------------------------------

  function HexChar(d: nat): (c: CodePoint)
    requires d < 16
    ensures HexVal(c) == Some(d) && c < 128
  {
    if d < 10 then (48 + d) as CodePoint else (87 + d) as CodePoint
  }

  function HexVal(c: CodePoint): (d: Option<nat>)
    ensures d.Some? ==> d.value < 16
  {
    if 48 <= c <= 57 then Some(c as int - 48)
    else if 97 <= c <= 102 then Some(c as int - 87)
    else if 65 <= c <= 70 then Some(c as int - 55)
    else None
  }

  function Hex4(n: nat): (r: Text)
    requires n < 0x10000
    ensures |r| == 4
  {
    [HexChar(n / 4096), HexChar(n / 256 % 16), HexChar(n / 16 % 16), HexChar(n % 16)]
  }

  function Unicode(n: nat): (r: Text)
    requires n < 0x10000
    ensures |r| == 6
  {
    [BACKSLASH, 117] + Hex4(n)
  }

  /** The two-character escapes, by letter. */
  function ShortEscape(c: CodePoint): (letter: Option<CodePoint>) {
    if c == QUOTE || c == BACKSLASH then Some(c)
    else if c == 10 then Some(110)
    else if c == 13 then Some(114)
    else if c == 9 then Some(116)
    else if c == 12 then Some(102)
    else if c == 8 then Some(98)
    else None
  }

  function HighOf(c: CodePoint): (h: nat)
    requires c >= 0x10000
    ensures 0xD800 <= h <= 0xDBFF
  {
    0xD800 + (c as int - 0x10000) / 0x400
  }

  function LowOf(c: CodePoint): (l: nat)
    requires c >= 0x10000
    ensures 0xDC00 <= l <= 0xDFFF
  {
    0xDC00 + (c as int - 0x10000) % 0x400
  }

  function Escape(c: CodePoint): (r: Text)
    ensures r != []
  {
    match ShortEscape(c)
    case Some(letter) => [BACKSLASH, letter]
    case None =>
      if 32 <= c <= 126 then [c]
      else if c < 0x10000 then Unicode(c as int)
      else Unicode(HighOf(c)) + Unicode(LowOf(c))
  }

  function EscapeAll(s: Text): (r: Text) {
    if s == [] then [] else Escape(s[0]) + EscapeAll(s[1..])
  }

  /** `json.dumps` of one scalar. */
  function Print(v: Scalar): (r: Text)
    ensures r != []
  {
    match v
    case Null => [110, 117, 108, 108]
    case Bool(b) => if b then [116, 114, 117, 101] else [102, 97, 108, 115, 101]
    case Num(n) => IntText(n)
    case Str(s) => [QUOTE] + EscapeAll(s) + [QUOTE]
  }

  function PrintMembers(ms: seq<Member>): (r: Text)
    requires ms != []
  {
    var first := [QUOTE] + (EscapeAll(ms[0].0) + ([QUOTE, COLON] + Print(ms[0].1)));
    if |ms| == 1 then first else first + ([COMMA] + PrintMembers(ms[1..]))
  }

  function PrintObject(ms: seq<Member>): (r: Text) {
    if ms == [] then [OPEN, CLOSE] else [OPEN] + (PrintMembers(ms) + [CLOSE])
  }

  // ---- the printed forms, literally --------------------------------------

  const HEX_DIGITS := "0123456789abcdef"

  /** A Unicode escape: a backslash, the letter u and the four digits. */
  predicate IsEscapeOf(r: Text, n: nat) {
    && |r| == 6 && r[0] == 92 && r[1] == 117
    && r[2] as int == HEX_DIGITS[n / 4096 % 16] as int && r[3] as int == HEX_DIGITS[n / 256 % 16] as int
    && r[4] as int == HEX_DIGITS[n / 16 % 16] as int && r[5] as int == HEX_DIGITS[n % 16] as int
  }

  lemma HexDigits(d: nat)
    requires d < 16
    ensures HexChar(d) as int == HEX_DIGITS[d] as int
  {
  }

  lemma UnicodeExactly(n: nat)
    requires n < 0x10000
    ensures IsEscapeOf(Unicode(n), n)
  {
    HexDigits(n / 4096);
    HexDigits(n / 256 % 16);
    HexDigits(n / 16 % 16);
    HexDigits(n % 16);
    hide HexChar;
    assert n / 4096 % 16 == n / 4096;
  }

  /** How each character is written: RFC 8259 section 7 in ASCII. */
  lemma EscapeExactly(c: CodePoint)
    ensures Escape(34) == Ascii("\\\"") && Escape(92) == Ascii("\\\\")
    ensures Escape(8) == Ascii("\\b") && Escape(9) == Ascii("\\t") && Escape(10) == Ascii("\\n")
    ensures Escape(12) == Ascii("\\f") && Escape(13) == Ascii("\\r")
    ensures 32 <= c <= 126 && c != 34 && c != 92 ==> Escape(c) == [c]
    ensures (c < 32 && c !in {8, 9, 10, 12, 13}) || 127 <= c < 0x10000 ==> IsEscapeOf(Escape(c), c as int)
    ensures c >= 0x10000 ==>
              && |Escape(c)| == 12
              && IsEscapeOf(Escape(c)[..6], 0xD800 + (c as int - 0x10000) / 1024)
              && IsEscapeOf(Escape(c)[6..], 0xDC00 + (c as int - 0x10000) % 1024)
  {
    hide IsEscapeOf, Unicode;
    if c < 0x10000 {
      UnicodeExactly(c as int);
    } else {
      UnicodeExactly(HighOf(c));
      UnicodeExactly(LowOf(c));
    }
  }

  /** Plain characters are written as they are. */
  lemma {:induction false} EscapePlain(s: Text)
    requires forall i | 0 <= i < |s| :: 32 <= s[i] <= 126 && s[i] != 34 && s[i] != 92
    ensures EscapeAll(s) == s
  {
    if s != [] {
      EscapePlain(s[1..]);
      assert s == [s[0]] + s[1..];
    }
  }

  lemma PrintExactly(n: int)
    ensures Print(Null) == Ascii("null") && Print(Bool(true)) == Ascii("true") && Print(Bool(false)) == Ascii("false")
    ensures Print(Num(n)) == if n < 0 then Ascii("-") + Decimal(-n) else Decimal(n)
  {
  }

  // ---- parsing -----------------------------------------------------------

  predicate IsWs(c: CodePoint) {
    c == 32 || c == 9 || c == 10 || c == 13
  }

  function SkipWs(t: Text): (r: Text)
    ensures |r| <= |t|
    ensures t != [] && !IsWs(t[0]) ==> r == t
  {
    if t != [] && IsWs(t[0]) then SkipWs(t[1..]) else t
  }

  function Unescape(letter: CodePoint): (c: Option<CodePoint>) {
    if letter == QUOTE || letter == BACKSLASH || letter == 47 then Some(letter)
    else if letter == 110 then Some(10)
    else if letter == 114 then Some(13)
    else if letter == 116 then Some(9)
    else if letter == 102 then Some(12)
    else if letter == 98 then Some(8)
    else None
  }

  /** The four hexadecimal digits at the front. */
  function ReadHex4(t: Text): (n: Option<nat>)
    ensures n.Some? ==> |t| >= 4 && n.value < 0x10000
  {
    if |t| < 4 then None
    else match (HexVal(t[0]), HexVal(t[1]), HexVal(t[2]), HexVal(t[3]))
      case (Some(a), Some(b), Some(c), Some(d)) => Some(a * 4096 + b * 256 + c * 16 + d)
      case _ => None
  }

  /** A Unicode escape at the front: its code unit. */
  function ReadUnicode(t: Text): (n: Option<nat>)
    ensures n.Some? ==> |t| >= 6 && n.value < 0x10000
  {
    if |t| >= 2 && t[0] == BACKSLASH && t[1] == 117 then ReadHex4(t[2..]) else None
  }

  /** One character of a string body: joins an escaped surrogate pair. */
  function ReadChar(t: Text): (r: Parsed<CodePoint>)
    requires t != []
    ensures r.Ok? ==> |r.rest| < |t|
  {
    if t[0] != BACKSLASH then (if t[0] < 32 then Bad else Ok(t[0], t[1..]))
    else if |t| < 2 then Bad
    else if t[1] != 117 then
      (match Unescape(t[1]) case None => Bad case Some(c) => Ok(c, t[2..]))
    else match ReadUnicode(t)
      case None => Bad
      case Some(n) =>
        var c, low := n as CodePoint, ReadUnicode(t[6..]);
        if IsHigh(c) && low.Some? && IsLow(low.value as CodePoint)
        then Ok(Combine(c, low.value as CodePoint), t[12..])
        else Ok(c, t[6..])
  }

  /** A string body up to and including its closing quote. */
  function ReadChars(t: Text): (r: Parsed<Text>)
    ensures r.Ok? ==> |r.rest| < |t|
    decreases |t|
  {
    if t == [] then Bad
    else if t[0] == QUOTE then Ok([], t[1..])
    else match ReadChar(t)
      case Bad => Bad
      case Ok(c, rest) => match ReadChars(rest)
        case Bad => Bad
        case Ok(s, rest') => Ok([c] + s, rest')
  }

  /** A natural number without superfluous leading zeros. */
  function ReadNat(t: Text): (r: Parsed<nat>)
    ensures r.Ok? ==> |r.rest| < |t|
  {
    var digits := if t != [] && t[0] == 48 then t[..1] else TakeDigits(t);
    if digits == [] then Bad else Ok(Value(digits), t[|digits|..])
  }

  function ReadInt(t: Text): (r: Parsed<int>)
    ensures r.Ok? ==> |r.rest| < |t|
  {
    if t != [] && t[0] == 45 then
      (match ReadNat(t[1..]) case Bad => Bad case Ok(n, rest) => Ok(0 - n as int, rest))
    else
      (match ReadNat(t) case Bad => Bad case Ok(n, rest) => Ok(n as int, rest))
  }

  /** How many characters of a fraction, or of an exponent, are at the front. */
  function FractionLength(t: Text): (n: nat)
    ensures n <= |t|
  {
    if t == [] || t[0] != 46 || TakeDigits(t[1..]) == [] then 0 else 1 + |TakeDigits(t[1..])|
  }

  function ExponentLength(t: Text): (n: nat)
    ensures n <= |t|
  {
    if t == [] || (t[0] != 101 && t[0] != 69) then 0
    else
      var sign := if |t| > 1 && (t[1] == 43 || t[1] == 45) then 2 else 1;
      var digits := TakeDigits(t[sign..]);
      if digits == [] then 0 else sign + |digits|
  }

  /** An integer, or a decimal that is rounded. */
  function ReadNumber(host: Host, t: Text): (r: Parsed<RawValue>)
    ensures r.Ok? ==> |r.rest| < |t|
  {
    match ReadInt(t)
    case Bad => Bad
    case Ok(n, rest) =>
      var k := FractionLength(rest);
      var m := k + ExponentLength(rest[k..]);
      if m == 0 then Ok(Plain(Num(n)), rest) else Ok(Fraction(host.round(t[..|t| - |rest| + m])), rest[m..])
  }

  const INFINITY: Text := [73, 110, 102, 105, 110, 105, 116, 121]
  const NAN: Text := [78, 97, 78]

  function ReadWord(t: Text, word: Text, v: RawValue): (r: Parsed<RawValue>)
    requires word != []
    ensures r.Ok? ==> |r.rest| < |t|
  {
    if word <= t then Ok(v, t[|word|..]) else Bad
  }

  function ReadValue(host: Host, t: Text): (r: Parsed<RawValue>)
    ensures r.Ok? ==> |r.rest| < |t|
    decreases |t|, 1
  {
    if t == [] then Bad
    else if t[0] == QUOTE then
      (match ReadChars(t[1..]) case Bad => Bad case Ok(s, rest) => Ok(Plain(Str(s)), rest))
    else if [45] + INFINITY <= t then ReadWord(t, [45] + INFINITY, Fraction(Infinite(true)))
    else if t[0] == 45 || IsDigit(t[0]) then ReadNumber(host, t)
    else if t[0] == 110 then ReadWord(t, Print(Null), Plain(Null))
    else if t[0] == 116 then ReadWord(t, Print(Bool(true)), Plain(Bool(true)))
    else if t[0] == 102 then ReadWord(t, Print(Bool(false)), Plain(Bool(false)))
    else if t[0] == 73 then ReadWord(t, INFINITY, Fraction(Infinite(false)))
    else if t[0] == 78 then ReadWord(t, NAN, Fraction(NotANumber))
    else if t[0] == OPEN then
      (match ReadBraces(host, t) case Bad => Bad case Ok(_, rest) => Show(host, t, rest))
    else if t[0] == OPEN_LIST then
      var body := SkipWs(t[1..]);
      if body != [] && body[0] == CLOSE_LIST then Show(host, t, body[1..])
      else (match ReadElements(host, body) case Bad => Bad case Ok(_, rest) => Show(host, t, rest))
    else Bad
  }

  /** The value that ends before `rest`, as text. */
  function Show(host: Host, t: Text, rest: Text): (r: Parsed<RawValue>)
    requires |rest| < |t|
    ensures r.Ok? ==> r.rest == rest
  {
    match host.show(t[..|t| - |rest|])
    case None => Bad
    case Some(text) => Ok(Nested(text), rest)
  }

  /** Elements up to and including the closing bracket. */
  function ReadElements(host: Host, t: Text): (r: Parsed<seq<RawValue>>)
    ensures r.Ok? ==> |r.rest| < |t|
    decreases |t|, 2
  {
    match ReadValue(host, t)
    case Bad => Bad
    case Ok(v, rest) =>
      var next := SkipWs(rest);
      if next == [] then Bad
      else if next[0] == CLOSE_LIST then Ok([v], next[1..])
      else if next[0] != COMMA then Bad
      else match ReadElements(host, SkipWs(next[1..]))
        case Bad => Bad
        case Ok(vs, rest') => Ok([v] + vs, rest')
  }

  /** `"key" : value`, white space allowed around the colon. */
  function ReadMember(host: Host, t: Text): (r: Parsed<RawMember>)
    ensures r.Ok? ==> |r.rest| < |t|
    decreases |t|, 1
  {
    if t == [] || t[0] != QUOTE then Bad
    else match ReadChars(t[1..])
      case Bad => Bad
      case Ok(key, rest) =>
        var colon := SkipWs(rest);
        if colon == [] || colon[0] != COLON then Bad
        else match ReadValue(host, SkipWs(colon[1..]))
          case Bad => Bad
          case Ok(v, rest') => Ok((key, v), rest')
  }

  /** Members up to and including the closing brace. */
  function ReadMembers(host: Host, t: Text): (r: Parsed<seq<RawMember>>)
    ensures r.Ok? ==> |r.rest| < |t|
    decreases |t|, 2
  {
    match ReadMember(host, t)
    case Bad => Bad
    case Ok(m, rest) =>
      var next := SkipWs(rest);
      if next == [] then Bad
      else if next[0] == CLOSE then Ok([m], next[1..])
      else if next[0] != COMMA then Bad
      else match ReadMembers(host, SkipWs(next[1..]))
        case Bad => Bad
        case Ok(ms, rest') => Ok([m] + ms, rest')
  }

  /** An object from its opening brace on. */
  function ReadBraces(host: Host, t: Text): (r: Parsed<seq<RawMember>>)
    requires t != []
    ensures r.Ok? ==> |r.rest| < |t|
    decreases |t|, 0
  {
    var body := SkipWs(t[1..]);
    if body != [] && body[0] == CLOSE then Ok([], body[1..]) else ReadMembers(host, body)
  }

  /** A whole document that is one object. */
  function ReadObject(host: Host, t: Text): (r: Option<seq<RawMember>>) {
    var start := SkipWs(t);
    if start == [] || start[0] != OPEN then None
    else
      var parsed := ReadBraces(host, start);
      if parsed.Ok? && SkipWs(parsed.rest) == [] then Some(parsed.value) else None
  }

  // ---- reading back what was printed -------------------------------------

  function CanonScalar(v: Scalar): (r: Scalar) {
    if v.Str? then Str(Canon(v.s)) else v
  }

  function CanonMembers(ms: seq<Member>): (r: seq<Member>)
    ensures |r| == |ms|
  {
    if ms == [] then [] else [(Canon(ms[0].0), CanonScalar(ms[0].1))] + CanonMembers(ms[1..])
  }

  /** The members as a reader returns them. */
  function Raw(ms: seq<Member>): (r: seq<RawMember>)
    ensures |r| == |ms|
  {
    if ms == [] then [] else [(ms[0].0, Plain(ms[0].1))] + Raw(ms[1..])
  }

  /** A number printed before this text ends where the text begins. */
  predicate EndsNumber(rest: Text) {
    rest == [] || (!IsDigit(rest[0]) && rest[0] != 46 && rest[0] != 101 && rest[0] != 69)
  }

  lemma HexArithmetic(n: nat)
    requires n < 0x10000
    ensures n / 4096 * 4096 + n / 256 % 16 * 256 + n / 16 % 16 * 16 + n % 16 == n
  {
    assert n / 256 == n / 4096 * 16 + n / 256 % 16;
    assert n / 16 == n / 256 * 16 + n / 16 % 16;
  }

  lemma ReadHexOf(n: nat, rest: Text)
    requires n < 0x10000
    ensures ReadUnicode(Unicode(n) + rest) == Some(n)
    ensures (Unicode(n) + rest)[6..] == rest
  {
    HexArithmetic(n);
    assert (Unicode(n) + rest)[2..] == Hex4(n) + rest;
  }

  lemma PairArithmetic(c: CodePoint)
    requires c >= 0x10000
    ensures Combine(HighOf(c) as CodePoint, LowOf(c) as CodePoint) == c
  {
  }

  /** What follows an escaped character starts with a low surrogate escape exactly when the
      next character is a low surrogate. */
  lemma LowEscapeAhead(s: Text, rest: Text)
    ensures var t := EscapeAll(s) + ([QUOTE] + rest);
            var low := ReadUnicode(t);
            (low.Some? && IsLow(low.value as CodePoint)) <==> (s != [] && IsLow(s[0]))
    ensures s != [] && IsLow(s[0]) ==>
              ReadUnicode(EscapeAll(s) + ([QUOTE] + rest)) == Some(s[0] as int)
  {
    if s != [] {
      var more := EscapeAll(s[1..]) + ([QUOTE] + rest);
      Assoc(Escape(s[0]), EscapeAll(s[1..]), [QUOTE] + rest);
      EscapeAhead(s[0], more);
    }
  }

  lemma EscapeAhead(c: CodePoint, more: Text)
    ensures var low := ReadUnicode(Escape(c) + more);
            (low.Some? && IsLow(low.value as CodePoint)) <==> IsLow(c)
    ensures IsLow(c) ==> ReadUnicode(Escape(c) + more) == Some(c as int)
  {
    if ShortEscape(c).None? && !(32 <= c <= 126) {
      if c < 0x10000 {
        ReadHexOf(c as int, more);
      } else {
        Assoc(Unicode(HighOf(c)), Unicode(LowOf(c)), more);
        ReadHexOf(HighOf(c), Unicode(LowOf(c)) + more);
      }
    }
  }

  lemma ReadShort(c: CodePoint, more: Text)
    requires ShortEscape(c).Some?
    ensures ReadChar(Escape(c) + more) == Ok(c, more) && (Escape(c) + more)[0] != QUOTE
  {
    hide ReadUnicode;
    assert (Escape(c) + more)[2..] == more;
  }

  lemma ReadBasic(c: CodePoint, more: Text)
    requires ShortEscape(c).None? && !(32 <= c <= 126) && c < 0x10000
    requires var low := ReadUnicode(more); !(IsHigh(c) && low.Some? && IsLow(low.value as CodePoint))
    ensures ReadChar(Escape(c) + more) == Ok(c, more) && (Escape(c) + more)[0] != QUOTE
  {
    ReadHexOf(c as int, more);
    hide ReadUnicode, ShortEscape, Unescape;
  }

  lemma ReadAstral(c: CodePoint, more: Text)
    requires ShortEscape(c).None? && c >= 0x10000
    ensures ReadChar(Escape(c) + more) == Ok(c, more) && (Escape(c) + more)[0] != QUOTE
  {
    var t := Escape(c) + more;
    Assoc(Unicode(HighOf(c)), Unicode(LowOf(c)), more);
    ReadHexOf(HighOf(c), Unicode(LowOf(c)) + more);
    ReadHexOf(LowOf(c), more);
    PairArithmetic(c);
    hide ReadUnicode, ShortEscape, Unescape, Unicode, HighOf, LowOf;
    assert t[12..] == t[6..][6..] == more;
  }

  /** Reading one printed character: alone, unless it is a high surrogate whose low one follows. */
  lemma ReadCharOf(c: CodePoint, more: Text)
    requires var low := ReadUnicode(more); !(IsHigh(c) && low.Some? && IsLow(low.value as CodePoint))
    ensures ReadChar(Escape(c) + more) == Ok(c, more)
    ensures (Escape(c) + more)[0] != QUOTE
  {
    if ShortEscape(c).Some? {
      ReadShort(c, more);
    } else if 32 <= c <= 126 {
      assert ([c] + more)[1..] == more;
    } else if c < 0x10000 {
      ReadBasic(c, more);
    } else {
      ReadAstral(c, more);
    }
  }

  lemma ReadPairOf(h: CodePoint, l: CodePoint, more: Text)
    requires IsHigh(h) && IsLow(l)
    ensures ReadChar(Escape(h) + (Escape(l) + more)) == Ok(Combine(h, l), more)
    ensures (Escape(h) + (Escape(l) + more))[0] != QUOTE
  {
    var t := Escape(h) + (Escape(l) + more);
    ReadHexOf(h as int, Unicode(l as int) + more);
    ReadHexOf(l as int, more);
    assert t[12..] == t[6..][6..] == more;
  }

  /** Printing and reading a string joins its split pairs and changes nothing else. */
  lemma {:induction false} ReadCharsOf(s: Text, rest: Text)
    ensures ReadChars(EscapeAll(s) + ([QUOTE] + rest)) == Ok(Canon(s), rest)
    decreases |s|
  {
    var tail := [QUOTE] + rest;
    if s == [] {
      assert [] + tail == tail && tail[1..] == rest;
    } else if |s| >= 2 && IsPair(s, 0) {
      var more := EscapeAll(s[2..]) + tail;
      assert EscapeAll(s) == Escape(s[0]) + EscapeAll(s[1..]);
      assert s[1..][0] == s[1] && s[1..][1..] == s[2..];
      assert EscapeAll(s[1..]) == Escape(s[1]) + EscapeAll(s[2..]);
      Assoc(Escape(s[0]), EscapeAll(s[1..]), tail);
      Assoc(Escape(s[1]), EscapeAll(s[2..]), tail);
      ReadPairOf(s[0], s[1], more);
      ReadCharsOf(s[2..], rest);
    } else {
      var more := EscapeAll(s[1..]) + tail;
      Assoc(Escape(s[0]), EscapeAll(s[1..]), tail);
      LowEscapeAhead(s[1..], rest);
      assert IsHigh(s[0]) && |s| >= 2 ==> !IsLow(s[1..][0]);
      ReadCharOf(s[0], more);
      ReadCharsOf(s[1..], rest);
      CanonStep(s);
    }
  }

  lemma CanonStep(s: Text)
    requires s != [] && !(|s| >= 2 && IsPair(s, 0))
    ensures Canon(s) == [s[0]] + Canon(s[1..])
  {
    if |s| == 1 {
      assert s == [s[0]] + s[1..];
    }
  }

  lemma {:induction false} ReadNatOf(n: nat, rest: Text)
    requires rest != [] ==> !IsDigit(rest[0])
    ensures ReadNat(Decimal(n) + rest) == Ok(n, rest)
  {
    var t := Decimal(n) + rest;
    ValueOfDecimal(n);
    assert t[|Decimal(n)|..] == rest;
    if n == 0 {
      assert t[..1] == Decimal(0);
    } else {
      TakeDigitsOf(Decimal(n), rest);
    }
  }

  lemma {:induction false} ReadIntOf(n: int, rest: Text)
    requires rest != [] ==> !IsDigit(rest[0])
    ensures ReadInt(IntText(n) + rest) == Ok(n, rest)
  {
    hide Decimal, ReadNat;
    if n < 0 {
      ReadNatOf(-n, rest);
      Assoc([45], Decimal(-n), rest);
      assert ([45] + (Decimal(-n) + rest))[1..] == Decimal(-n) + rest;
    } else {
      ReadNatOf(n, rest);
    }
  }

  lemma ReadStrOf(host: Host, s: Text, rest: Text)
    ensures ReadValue(host, Print(Str(s)) + rest) == Ok(Plain(Str(Canon(s))), rest) && Print(Str(s))[0] == QUOTE
  {
    hide ReadChars, EscapeAll, Canon, ReadNumber;
    var t := Print(Str(s)) + rest;
    assert t[1..] == EscapeAll(s) + ([QUOTE] + rest);
    ReadCharsOf(s, rest);
  }

  lemma ReadNumOf(host: Host, n: int, rest: Text)
    requires EndsNumber(rest)
    ensures ReadValue(host, Print(Num(n)) + rest) == Ok(Plain(Num(n)), rest) && !IsWs(Print(Num(n))[0])
  {
    var t := IntText(n) + rest;
    ReadIntOf(n, rest);
    NoInfinity(n, rest);
    hide ReadInt, ReadChars;
    assert FractionLength(rest) == 0 && rest[0..] == rest && ExponentLength(rest) == 0;
    assert t[0] == 45 || IsDigit(t[0]);
  }

  lemma NoInfinity(n: int, rest: Text)
    ensures !([45] + INFINITY <= IntText(n) + rest)
  {
    var t, word := IntText(n) + rest, [45] + INFINITY;
    assert word[0] == 45 && word[1] == 73;
    if n < 0 {
      assert IsDigit(Decimal(-n)[0]);
      assert t[1] == Decimal(-n)[0];
      NoPrefix(word, t, 1);
    } else {
      assert IsDigit(t[0]);
      NoPrefix(word, t, 0);
    }
  }

  lemma ReadValueOf(host: Host, v: Scalar, rest: Text)
    requires EndsNumber(rest)
    ensures ReadValue(host, Print(v) + rest) == Ok(Plain(CanonScalar(v)), rest)
    ensures !IsWs(Print(v)[0])
  {
    match v
    case Str(s) => ReadStrOf(host, s, rest);
    case Num(n) => ReadNumOf(host, n, rest);
    case Null => assert (Print(v) + rest)[4..] == rest;
    case Bool(b) => assert (Print(v) + rest)[|Print(v)|..] == rest;
  }

  /** A member whose value is printed as `value` and read as `v`. */
  lemma {:induction false} ReadPair(host: Host, key: Text, value: Text, v: RawValue, rest: Text)
    requires value != [] && !IsWs(value[0]) && ReadValue(host, value + rest) == Ok(v, rest)
    ensures ReadMember(host, [QUOTE] + (EscapeAll(key) + ([QUOTE, COLON] + value)) + rest) == Ok((Canon(key), v), rest)
  {
    hide ReadChars, EscapeAll, ReadValue;
    var colon := [COLON] + (value + rest);
    var body := EscapeAll(key) + ([QUOTE] + colon);
    assert [QUOTE] + (EscapeAll(key) + ([QUOTE, COLON] + value)) + rest == [QUOTE] + body;
    assert ([QUOTE] + body)[1..] == body;
    ReadCharsOf(key, colon);
    assert colon[1..] == value + rest;
  }

  lemma {:induction false} ReadMemberOf(host: Host, m: Member, rest: Text)
    requires EndsNumber(rest)
    ensures ReadMember(host, [QUOTE] + (EscapeAll(m.0) + ([QUOTE, COLON] + Print(m.1))) + rest)
            == Ok((Canon(m.0), Plain(CanonScalar(m.1))), rest)
  {
    hide ReadChars, EscapeAll, ReadValue, Print;
    ReadValueOf(host, m.1, rest);
    ReadPair(host, m.0, Print(m.1), Plain(CanonScalar(m.1)), rest);
  }

  lemma {:induction false} ReadMembersOf(host: Host, ms: seq<Member>, rest: Text)
    requires ms != []
    ensures ReadMembers(host, PrintMembers(ms) + ([CLOSE] + rest)) == Ok(Raw(CanonMembers(ms)), rest)
    ensures PrintMembers(ms) != [] && PrintMembers(ms)[0] == QUOTE
    decreases |ms|
  {
    hide EscapeAll, Print, ReadMember, Canon;
    var m := ms[0];
    var first := [QUOTE] + (EscapeAll(m.0) + ([QUOTE, COLON] + Print(m.1)));
    if |ms| == 1 {
      ReadMemberOf(host, m, [CLOSE] + rest);
      assert ([CLOSE] + rest)[1..] == rest;
      var c := (Canon(m.0), CanonScalar(m.1));
      assert CanonMembers(ms) == [c] + [] == [c];
      RawCons(c, []);
      assert Raw([]) == [] && [c] + [] == [c] && [(c.0, Plain(c.1))] + [] == [(c.0, Plain(c.1))];
    } else {
      var more := PrintMembers(ms[1..]) + ([CLOSE] + rest);
      var next := [COMMA] + more;
      ReadMembersOf(host, ms[1..], rest);
      Assoc(first, [COMMA] + PrintMembers(ms[1..]), [CLOSE] + rest);
      Assoc([COMMA], PrintMembers(ms[1..]), [CLOSE] + rest);
      ReadMemberOf(host, m, next);
      assert next[1..] == more && more[0] == QUOTE;
      RawCons((Canon(m.0), CanonScalar(m.1)), CanonMembers(ms[1..]));
    }
  }

  lemma RawCons(m: Member, ms: seq<Member>)
    ensures Raw([m] + ms) == [(m.0, Plain(m.1))] + Raw(ms)
  {
    assert ([m] + ms)[1..] == ms;
  }

  lemma CanonNothing()
    ensures Raw(CanonMembers([])) == []
  {
  }

  /** Reading a printed object gives its members back, split pairs joined. */
  lemma ReadObjectOf(host: Host, ms: seq<Member>)
    ensures ReadObject(host, PrintObject(ms)) == Some(Raw(CanonMembers(ms)))
  {
    hide ReadMembers, PrintMembers, CanonMembers, Raw;
    if ms == [] {
      assert PrintObject(ms)[1..] == [CLOSE] && [CLOSE][1..] == [];
      CanonNothing();
    } else {
      ReadMembersOf(host, ms, []);
      assert [CLOSE] + [] == [CLOSE];
      assert PrintObject(ms)[1..] == PrintMembers(ms) + [CLOSE];
    }
  }

  /** An object of one member, whatever its value. */
  lemma ReadOneMember(host: Host, key: Text, value: Text, v: RawValue)
    requires value != [] && !IsWs(value[0]) && ReadValue(host, value + [CLOSE]) == Ok(v, [CLOSE])
    ensures ReadObject(host, [OPEN] + ([QUOTE] + (EscapeAll(key) + ([QUOTE, COLON] + value)) + [CLOSE]))
            == Some([(Canon(key), v)])
  {
    hide EscapeAll, ReadMember, Canon, ReadValue;
    var member := [QUOTE] + (EscapeAll(key) + ([QUOTE, COLON] + value));
    ReadPair(host, key, value, v, [CLOSE]);
    assert ([OPEN] + (member + [CLOSE]))[1..] == member + [CLOSE];
    assert (member + [CLOSE])[0] == QUOTE && [CLOSE][1..] == [];
    assert ReadMembers(host, member + [CLOSE]) == Ok([(Canon(key), v)], []);
  }

  // ---- what else is read -------------------------------------------------

  predicate AllWs(t: Text) {
    forall i | 0 <= i < |t| :: t[i] == 32 || t[i] == 9 || t[i] == 10 || t[i] == 13
  }

  lemma {:induction false} SkipWsOf(w: Text, rest: Text)
    requires AllWs(w) && (rest != [] ==> !IsWs(rest[0]))
    ensures SkipWs(w + rest) == rest
  {
    if w == [] {
      assert w + rest == rest;
    } else {
      assert (w + rest)[1..] == w[1..] + rest;
      SkipWsOf(w[1..], rest);
    }
  }

  /** White space may stand around every part of an object. */
  lemma ReadSpaced(host: Host, key: Text, value: Text, v: RawValue, w: seq<Text>)
    requires |w| == 6 && forall i | 0 <= i < 6 :: AllWs(w[i])
    requires value != [] && !IsWs(value[0]) && ReadValue(host, value + (w[4] + ([CLOSE] + w[5]))) == Ok(v, w[4] + ([CLOSE] + w[5]))
    ensures var colon := w[2] + ([COLON] + (w[3] + (value + (w[4] + ([CLOSE] + w[5])))));
            ReadObject(host, w[0] + ([OPEN] + (w[1] + ([QUOTE] + (EscapeAll(key) + ([QUOTE] + colon)))))) == Some([(Canon(key), v)])
  {
    var end := w[4] + ([CLOSE] + w[5]);
    var afterColon := w[3] + (value + end);
    var colon := w[2] + ([COLON] + afterColon);
    var member := [QUOTE] + (EscapeAll(key) + ([QUOTE] + colon));
    SpacedMember(host, key, value, v, w[2], w[3], end);
    SkipWsOf(w[0], [OPEN] + (w[1] + member));
    SkipWsOf(w[1], member);
    SkipWsOf(w[4], [CLOSE] + w[5]);
    SkipWsOf(w[5], []);
    assert w[5] + [] == w[5] && ([CLOSE] + w[5])[1..] == w[5] && ([OPEN] + (w[1] + member))[1..] == w[1] + member;
    hide ReadMember, EscapeAll, Canon, ReadValue, SkipWs;
    assert ReadMembers(host, member) == Ok([(Canon(key), v)], w[5]);
  }

  lemma SpacedMember(host: Host, key: Text, value: Text, v: RawValue, w: Text, w': Text, end: Text)
    requires AllWs(w) && AllWs(w') && value != [] && !IsWs(value[0]) && ReadValue(host, value + end) == Ok(v, end)
    ensures ReadMember(host, [QUOTE] + (EscapeAll(key) + ([QUOTE] + (w + ([COLON] + (w' + (value + end))))))) == Ok((Canon(key), v), end)
  {
    var afterColon := w' + (value + end);
    var colon := w + ([COLON] + afterColon);
    ReadCharsOf(key, colon);
    SkipWsOf(w, [COLON] + afterColon);
    SkipWsOf(w', value + end);
    hide ReadChars, EscapeAll, ReadValue, Canon, SkipWs;
    assert ([COLON] + afterColon)[1..] == afterColon;
    var t := [QUOTE] + (EscapeAll(key) + ([QUOTE] + colon));
    assert t[1..] == EscapeAll(key) + ([QUOTE] + colon);
  }

  /** What else may stand in a string: any character from the blank on as it is, an escaped slash, and
      hexadecimal digits of either case; control characters may not. */
  lemma OtherChars(c: CodePoint, rest: Text)
    ensures c != 92 ==> ReadChar([c] + rest) == if c < 32 then Bad else Ok(c, rest)
    ensures ReadChar(Ascii("\\/") + rest) == Ok(47, rest)
    ensures HexVal(65) == HexVal(97) == Some(10) && HexVal(70) == HexVal(102) == Some(15)
  {
    assert ([c] + rest)[1..] == rest;
    var slash := Ascii("\\/") + rest;
    assert slash[0] == 92 && slash[1] == 47 && slash[2..] == rest;
  }

  /** Empty lists and objects as values, a fraction, and a number that stops where its grammar does. */
  lemma OtherValues(host: Host)
    ensures ReadValue(host, [91, 93, CLOSE]) == match host.show([91, 93]) case None => Bad case Some(s) => Ok(Nested(s), [CLOSE])
    ensures ReadValue(host, [123, 125, CLOSE]) == match host.show([123, 125]) case None => Bad case Some(s) => Ok(Nested(s), [CLOSE])
    ensures ReadValue(host, [49, 46, 53, CLOSE]) == Ok(Fraction(host.round([49, 46, 53])), [CLOSE])
    ensures ReadValue(host, [48, 49, CLOSE]) == Ok(Plain(Num(0)), [49, CLOSE])
  {
    EmptyValues(host);
    OneAndAHalf(host);
    LeadingZero(host);
    hide *;
  }

  lemma EmptyValues(host: Host)
    ensures ReadValue(host, [91, 93, CLOSE]) == match host.show([91, 93]) case None => Bad case Some(s) => Ok(Nested(s), [CLOSE])
    ensures ReadValue(host, [123, 125, CLOSE]) == match host.show([123, 125]) case None => Bad case Some(s) => Ok(Nested(s), [CLOSE])
  {
    var list: Text := [91, 93, CLOSE];
    var braces: Text := [123, 125, CLOSE];
    assert list[1..] == [93, CLOSE] && [93, CLOSE][1..] == [CLOSE] && list[..2] == [91, 93];
    assert braces[1..] == [125, CLOSE] && [125, CLOSE][1..] == [CLOSE] && braces[..2] == [123, 125];
    NoPrefix([45] + INFINITY, list, 0);
    NoPrefix([45] + INFINITY, braces, 0);
    hide ReadChars, ReadNumber, ReadMembers, ReadElements;
  }

  lemma OneAndAHalf(host: Host)
    ensures ReadValue(host, [49, 46, 53, CLOSE]) == Ok(Fraction(host.round([49, 46, 53])), [CLOSE])
  {
    var t: Text := [49, 46, 53, CLOSE];
    var fraction: Text := [46, 53, CLOSE];
    NoPrefix([45] + INFINITY, t, 0);
    TakeDigitsOf([49], fraction);
    TakeDigitsOf([53], [CLOSE]);
    assert t == [49] + fraction && fraction[1..] == [53] + [CLOSE];
    assert Value([49]) == 1;
    assert ReadInt(t) == Ok(1, fraction);
    assert FractionLength(fraction) == 2 && fraction[2..] == [CLOSE] && ExponentLength([CLOSE]) == 0;
    assert t[..3] == [49, 46, 53];
  }

  lemma LeadingZero(host: Host)
    ensures ReadValue(host, [48, 49, CLOSE]) == Ok(Plain(Num(0)), [49, CLOSE])
  {
    var t: Text := [48, 49, CLOSE];
    NoPrefix([45] + INFINITY, t, 0);
    assert t[..1] == [48] && t[1..] == [49, CLOSE];
    assert Value([48]) == 0;
    assert ReadInt(t) == Ok(0, [49, CLOSE]);
    assert FractionLength([49, CLOSE]) == 0 && [49, CLOSE][0..] == [49, CLOSE] && ExponentLength([49, CLOSE]) == 0;
  }

  // ---- the printed form is ASCII -----------------------------------------

  lemma {:induction false} EscapeAllAscii(s: Text)
    ensures IsAscii(EscapeAll(s))
  {
    if s != [] {
      EscapeAllAscii(s[1..]);
      assert IsAscii(Escape(s[0]));
    }
  }

  lemma PrintAscii(v: Scalar)
    ensures IsAscii(Print(v))
  {
    match v
    case Str(s) => EscapeAllAscii(s);
    case _ =>
  }

  lemma AsciiJoin(a: Text, b: Text)
    requires IsAscii(a) && IsAscii(b)
    ensures IsAscii(a + b)
  {
  }

  lemma MarksAreAscii()
    ensures IsAscii([QUOTE]) && IsAscii([QUOTE, COLON]) && IsAscii([COMMA])
  {
  }

  lemma {:induction false} PrintMembersAscii(ms: seq<Member>)
    requires ms != []
    ensures IsAscii(PrintMembers(ms))
    decreases |ms|
  {
    hide IsAscii, EscapeAll, Print;
    var key, value := EscapeAll(ms[0].0), [QUOTE, COLON] + Print(ms[0].1);
    EscapeAllAscii(ms[0].0);
    PrintAscii(ms[0].1);
    MarksAreAscii();
    AsciiJoin([QUOTE, COLON], Print(ms[0].1));
    AsciiJoin(key, value);
    AsciiJoin([QUOTE], key + value);
    if |ms| > 1 {
      PrintMembersAscii(ms[1..]);
      AsciiJoin([COMMA], PrintMembers(ms[1..]));
      AsciiJoin([QUOTE] + (key + value), [COMMA] + PrintMembers(ms[1..]));
    }
  }

  lemma PrintObjectAscii(ms: seq<Member>)
    ensures IsAscii(PrintObject(ms)) && PrintObject(ms) != []
  {
    if ms != [] {
      PrintMembersAscii(ms);
    }
  }
}
