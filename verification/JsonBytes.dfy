/** The text of a JSON document given as bytes: UTF-8, UTF-16 or UTF-32, told apart by its first bytes. */
module JsonBytes {
  import opened Common
  import opened SseFraming
  import opened Text

  datatype Encoding = Utf8 | Utf8Marked | Utf16Big | Utf16Little | Utf16Marked | Utf32Big | Utf32Little | Utf32Marked

  const MARK_32_BIG: Bytes := [0x00, 0x00, 0xFE, 0xFF]
  const MARK_32_LITTLE: Bytes := [0xFF, 0xFE, 0x00, 0x00]
  const MARK_16_BIG: Bytes := [0xFE, 0xFF]
  const MARK_16_LITTLE: Bytes := [0xFF, 0xFE]
  const MARK_8: Bytes := [0xEF, 0xBB, 0xBF]

  /** `json.detect_encoding`: a byte order mark decides, else where the zero bytes are. */
  function Detect(b: Bytes): (e: Encoding) {
    if MARK_32_BIG <= b || MARK_32_LITTLE <= b then Utf32Marked
    else if MARK_16_BIG <= b || MARK_16_LITTLE <= b then Utf16Marked
    else if MARK_8 <= b then Utf8Marked
    else if |b| >= 4 then
      if b[0] == 0 then (if b[1] != 0 then Utf16Big else Utf32Big)
      else if b[1] == 0 then (if b[2] != 0 || b[3] != 0 then Utf16Little else Utf32Little)
      else Utf8
    else if |b| == 2 then
      if b[0] == 0 then Utf16Big else if b[1] == 0 then Utf16Little else Utf8
    else Utf8
  }

  predicate IsTail(b: Byte) {
    0x80 <= b < 0xC0
  }

  /** The first character of UTF-8 bytes and its length; surrogates pass, overlong forms do not. */
  function FirstUtf8(b: Bytes): (r: Option<(int, nat)>)
    requires b != []
    ensures r.Some? ==> 0 < r.value.1 <= |b| && 0 <= r.value.0 <= 0x10FFFF
  {
    var lead := b[0] as int;
    if lead < 0x80 then Some((lead, 1))
    else if 0xC2 <= lead < 0xE0 && |b| >= 2 && IsTail(b[1]) then
      Some(((lead - 0xC0) * 0x40 + Low6(b[1]), 2))
    else if 0xE0 <= lead < 0xF0 && |b| >= 3 && IsTail(b[1]) && IsTail(b[2]) then
      var c := ((lead - 0xE0) * 0x40 + Low6(b[1])) * 0x40 + Low6(b[2]);
      if c < 0x800 then None else Some((c, 3))
    else if 0xF0 <= lead < 0xF5 && |b| >= 4 && IsTail(b[1]) && IsTail(b[2]) && IsTail(b[3]) then
      var c := (((lead - 0xF0) * 0x40 + Low6(b[1])) * 0x40 + Low6(b[2])) * 0x40 + Low6(b[3]);
      if c < 0x10000 || c > 0x10FFFF then None else Some((c, 4))
    else None
  }

  function Low6(b: Byte): (r: int)
    requires IsTail(b)
    ensures 0 <= r < 0x40
  {
    b as int - 0x80
  }

  function FromUtf8(b: Bytes): (r: Option<Text>)
    decreases |b|
  {
    if b == [] then Some([])
    else match FirstUtf8(b)
      case None => None
      case Some((c, n)) => Prepend(c as CodePoint, FromUtf8(b[n..]))
  }

  function Prepend(c: CodePoint, rest: Option<Text>): (r: Option<Text>) {
    if rest.Some? then Some([c] + rest.value) else None
  }

  function Unit(b: Bytes, big: bool): (u: int)
    requires |b| >= 2
    ensures 0 <= u < 0x10000
  {
    if big then b[0] as int * 0x100 + b[1] as int else b[1] as int * 0x100 + b[0] as int
  }

  /** Surrogate pairs are joined, lone surrogates pass. */
  function FromUtf16(b: Bytes, big: bool): (r: Option<Text>)
    decreases |b|
  {
    if b == [] then Some([])
    else if |b| == 1 then None
    else
      var c := Unit(b, big) as CodePoint;
      if IsHigh(c) && |b| >= 4 && IsLow(Unit(b[2..], big) as CodePoint)
      then Prepend(Combine(c, Unit(b[2..], big) as CodePoint), FromUtf16(b[4..], big))
      else Prepend(c, FromUtf16(b[2..], big))
  }

  function FromUtf32(b: Bytes, big: bool): (r: Option<Text>)
    decreases |b|
  {
    if b == [] then Some([])
    else if |b| < 4 then None
    else
      var c := if big then Unit(b, big) * 0x10000 + Unit(b[2..], big) else Unit(b[2..], big) * 0x10000 + Unit(b, big);
      if c > 0x10FFFF then None else Prepend(c as CodePoint, FromUtf32(b[4..], big))
  }

  /** `bytes.decode(detect_encoding(bytes), "surrogatepass")`. */
  function DocumentText(b: Bytes): (r: Option<Text>) {
    match Detect(b)
    case Utf8 => FromUtf8(b)
    case Utf8Marked => FromUtf8(b[3..])
    case Utf16Big => FromUtf16(b, true)
    case Utf16Little => FromUtf16(b, false)
    case Utf16Marked => FromUtf16(b[2..], b[0] == 0xFE)
    case Utf32Big => FromUtf32(b, true)
    case Utf32Little => FromUtf32(b, false)
    case Utf32Marked => FromUtf32(b[4..], b[0] == 0)
  }

  // ---- UTF-8 -------------------------------------------------------------

  /** The bytes of one character: RFC 3629 section 3, surrogates included. */
  function Utf8Bytes(c: CodePoint): (b: Bytes)
    ensures 1 <= |b| <= 4
  {
    var n := c as int;
    if n < 0x80 then [n as Byte]
    else if n < 0x800 then [(0xC0 + n / 64) as Byte, (0x80 + n % 64) as Byte]
    else if n < 0x10000 then [(0xE0 + n / 4096) as Byte, (0x80 + n / 64 % 64) as Byte, (0x80 + n % 64) as Byte]
    else
      [(0xF0 + n / 262144) as Byte, (0x80 + n / 4096 % 64) as Byte, (0x80 + n / 64 % 64) as Byte, (0x80 + n % 64) as Byte]
  }

  function ToUtf8(t: Text): (b: Bytes) {
    if t == [] then [] else Utf8Bytes(t[0]) + ToUtf8(t[1..])
  }

  lemma SplitSixty(n: nat)
    ensures n == n / 64 * 64 + n % 64
    ensures n / 64 == n / 4096 * 64 + n / 64 % 64
    ensures n / 4096 == n / 262144 * 64 + n / 4096 % 64
  {
  }

  lemma JoinSixty(a: nat, x: nat, y: nat, z: nat)
    requires x < 64 && y < 64 && z < 64
    ensures (a * 64 + x) / 64 == a && (a * 64 + x) % 64 == x
    ensures var n := (a * 64 + x) * 64 + y; n / 4096 == a && n / 64 % 64 == x && n % 64 == y
    ensures var n := ((a * 64 + x) * 64 + y) * 64 + z;
            n / 262144 == a && n / 4096 % 64 == x && n / 64 % 64 == y && n % 64 == z
  {
  }

  /** The reader takes exactly the bytes of one character off the front. */
  lemma FirstOfBytes(c: CodePoint, rest: Bytes)
    ensures FirstUtf8(Utf8Bytes(c) + rest) == Some((c as int, |Utf8Bytes(c)|))
  {
    SplitSixty(c as int);
  }

  lemma FirstIsBytes(b: Bytes)
    requires b != [] && FirstUtf8(b).Some?
    ensures var (c, k) := FirstUtf8(b).value; 0 < k <= |b| && b[..k] == Utf8Bytes(c as CodePoint)
  {
    var lead := b[0] as int;
    if lead >= 0xF0 {
      JoinSixty(lead - 0xF0, Low6(b[1]), Low6(b[2]), Low6(b[3]));
    } else if lead >= 0xE0 {
      JoinSixty(lead - 0xE0, Low6(b[1]), Low6(b[2]), 0);
    } else if lead >= 0xC0 {
      JoinSixty(lead - 0xC0, Low6(b[1]), 0, 0);
    }
  }

  lemma ReadGivesBytes(b: Bytes, t: Text, c: CodePoint, k: nat)
    requires b != [] && t != [] && FirstUtf8(b) == Some((c as int, k)) && b[..k] == Utf8Bytes(c)
    requires FromUtf8(b) == Some(t) && (FromUtf8(b[k..]) == Some(t[1..]) ==> b[k..] == ToUtf8(t[1..]))
    ensures b == ToUtf8(t)
  {
    hide *;
    ReadOne(b, c, k);
    PrependIs(c, FromUtf8(b[k..]), t);
    ToUtf8Cons(t);
    assert b == b[..k] + b[k..];
  }

  lemma ToUtf8Cons(t: Text)
    requires t != []
    ensures ToUtf8(t) == Utf8Bytes(t[0]) + ToUtf8(t[1..])
  {
    hide Utf8Bytes;
  }

  lemma PrependIs(c: CodePoint, rest: Option<Text>, t: Text)
    requires Prepend(c, rest) == Some(t)
    ensures t != [] && t[0] == c && rest == Some(t[1..])
  {
    assert ([c] + rest.value)[1..] == rest.value;
  }

  lemma BytesAreRead(b: Bytes, t: Text)
    requires t != [] && b == ToUtf8(t)
    ensures b != [] && FirstUtf8(b) == Some((t[0] as int, |Utf8Bytes(t[0])|))
    ensures b[|Utf8Bytes(t[0])|..] == ToUtf8(t[1..])
    ensures FromUtf8(ToUtf8(t[1..])) == Some(t[1..]) ==> FromUtf8(b) == Some(t)
  {
    var rest := ToUtf8(t[1..]);
    FirstOfBytes(t[0], rest);
    assert b == Utf8Bytes(t[0]) + rest && b[|Utf8Bytes(t[0])|..] == rest;
    hide FirstUtf8, Utf8Bytes, ToUtf8;
    ReadOne(b, t[0], |Utf8Bytes(t[0])|);
    assert t == [t[0]] + t[1..];
  }

  lemma ReadOne(b: Bytes, c: CodePoint, k: nat)
    requires b != [] && FirstUtf8(b) == Some((c as int, k))
    ensures FromUtf8(b) == Prepend(c, FromUtf8(b[k..]))
  {
    hide FirstUtf8;
  }

  /** UTF-8 is read back exactly: the bytes of a text, and nothing else, read as that text. */
  lemma {:induction false} Utf8Exactly(b: Bytes, t: Text)
    ensures FromUtf8(b) == Some(t) <==> b == ToUtf8(t)
    decreases |b|
  {
    hide FirstUtf8, Utf8Bytes;
    if b == [] || t == [] {
      if b != [] && FirstUtf8(b).Some? {
        var (c, k) := FirstUtf8(b).value;
      }
    } else {
      if FirstUtf8(b).Some? {
        var (c, k) := FirstUtf8(b).value;
        FirstIsBytes(b);
        Utf8Exactly(b[k..], t[1..]);
        if FromUtf8(b) == Some(t) {
          ReadGivesBytes(b, t, c as CodePoint, k);
        }
      }
      if b == ToUtf8(t) {
        BytesAreRead(b, t);
      }
      hide ToUtf8;
    }
  }

  // ---- UTF-16 and UTF-32 -------------------------------------------------

  function UnitBytes(u: nat, big: bool): (b: Bytes)
    requires u < 0x10000
    ensures |b| == 2
  {
    if big then [(u / 256) as Byte, (u % 256) as Byte] else [(u % 256) as Byte, (u / 256) as Byte]
  }

  /** A character in 16-bit units, one beyond the basic plane as two surrogates: RFC 2781 section 2.1. */
  function Utf16Bytes(c: CodePoint, big: bool): (b: Bytes)
    ensures |b| == if c < 0x10000 then 2 else 4
  {
    var n := c as int;
    if n < 0x10000 then UnitBytes(n, big)
    else UnitBytes(0xD800 + (n - 0x10000) / 1024, big) + UnitBytes(0xDC00 + (n - 0x10000) % 1024, big)
  }

  function ToUtf16(t: Text, big: bool): (b: Bytes) {
    if t == [] then [] else Utf16Bytes(t[0], big) + ToUtf16(t[1..], big)
  }

  lemma UnitOf(u: nat, big: bool, rest: Bytes)
    requires u < 0x10000
    ensures Unit(UnitBytes(u, big) + rest, big) == u && (UnitBytes(u, big) + rest)[2..] == rest
  {
  }

  /** The next unit is a low surrogate exactly when the next character is. */
  lemma NextUnit(t: Text, big: bool)
    ensures t == [] ==> ToUtf16(t, big) == []
    ensures t != [] ==> |ToUtf16(t, big)| >= 2 && (IsLow(Unit(ToUtf16(t, big), big) as CodePoint) <==> IsLow(t[0]))
  {
    if t != [] {
      var n, rest := t[0] as int, ToUtf16(t[1..], big);
      if n < 0x10000 {
        UnitOf(n, big, rest);
      } else {
        var high, low := 0xD800 + (n - 0x10000) / 1024, 0xDC00 + (n - 0x10000) % 1024;
        Assoc(UnitBytes(high, big), UnitBytes(low, big), rest);
        UnitOf(high, big, UnitBytes(low, big) + rest);
      }
    }
  }

  lemma TailUnsplit(t: Text)
    requires t != [] && !HasSplitPair(t)
    ensures !HasSplitPair(t[1..])
  {
    forall i: nat | i + 1 < |t[1..]| ensures !IsPair(t[1..], i) {
      assert IsPair(t[1..], i) == IsPair(t, i + 1);
    }
  }

  /** UTF-16 of either byte order is read back, for every text in which no pair is split. */
  lemma {:induction false} Utf16RoundTrip(t: Text, big: bool)
    requires !HasSplitPair(t)
    ensures FromUtf16(ToUtf16(t, big), big) == Some(t)
  {
    if t != [] {
      var tail := t[1..];
      TailUnsplit(t);
      assert tail != [] ==> !IsPair(t, 0);
      hide HasSplitPair;
      Utf16RoundTrip(tail, big);
      NextUnit(tail, big);
      var rest := ToUtf16(tail, big);
      if t[0] < 0x10000 {
        BasicUnit(t[0], rest, big);
      } else {
        AstralUnits(t[0], rest, big);
      }
      assert t == [t[0]] + tail;
    }
  }

  lemma BasicUnit(c: CodePoint, rest: Bytes, big: bool)
    requires c < 0x10000 && (IsHigh(c) && |rest| >= 2 ==> !IsLow(Unit(rest, big) as CodePoint))
    ensures FromUtf16(Utf16Bytes(c, big) + rest, big) == Prepend(c, FromUtf16(rest, big))
  {
    UnitOf(c as int, big, rest);
    hide UnitBytes, Unit;
  }

  lemma AstralUnits(c: CodePoint, rest: Bytes, big: bool)
    requires c >= 0x10000
    ensures FromUtf16(Utf16Bytes(c, big) + rest, big) == Prepend(c, FromUtf16(rest, big))
  {
    var n := c as int;
    var high, low := 0xD800 + (n - 0x10000) / 1024, 0xDC00 + (n - 0x10000) % 1024;
    Assoc(UnitBytes(high, big), UnitBytes(low, big), rest);
    UnitOf(high, big, UnitBytes(low, big) + rest);
    UnitOf(low, big, rest);
    hide UnitBytes, Unit;
    var b := Utf16Bytes(c, big) + rest;
    assert b[4..] == b[2..][2..] == rest;
    assert Combine(high as CodePoint, low as CodePoint) == c;
  }

  /** Four bytes per character, the character being their value to the base 256. */
  function Utf32Bytes(c: CodePoint, big: bool): (b: Bytes)
    ensures |b| == 4
  {
    var n := c as int;
    if big then [0, (n / 65536) as Byte, (n / 256 % 256) as Byte, (n % 256) as Byte]
    else [(n % 256) as Byte, (n / 256 % 256) as Byte, (n / 65536) as Byte, 0]
  }

  function ToUtf32(t: Text, big: bool): (b: Bytes) {
    if t == [] then [] else Utf32Bytes(t[0], big) + ToUtf32(t[1..], big)
  }

  /** UTF-32 of either byte order is read back, for every text. */
  lemma {:induction false} Utf32RoundTrip(t: Text, big: bool)
    ensures FromUtf32(ToUtf32(t, big), big) == Some(t)
  {
    if t != [] {
      var rest := ToUtf32(t[1..], big);
      Utf32RoundTrip(t[1..], big);
      FourBytes(t[0], rest, big);
      hide FromUtf32, Utf32Bytes;
      assert t == [t[0]] + t[1..];
    }
  }

  lemma FourBytes(c: CodePoint, rest: Bytes, big: bool)
    ensures FromUtf32(Utf32Bytes(c, big) + rest, big) == Prepend(c, FromUtf32(rest, big))
  {
    var b := Utf32Bytes(c, big) + rest;
    assert b[4..] == rest;
    FourBytesValue(c, rest, big);
    hide Utf32Bytes;
  }

  lemma FourBytesValue(c: CodePoint, rest: Bytes, big: bool)
    ensures var b := Utf32Bytes(c, big) + rest;
            (if big then Unit(b, big) * 0x10000 + Unit(b[2..], big) else Unit(b[2..], big) * 0x10000 + Unit(b, big)) == c as int
  {
    var b := Utf32Bytes(c, big) + rest;
    assert b[0] == Utf32Bytes(c, big)[0] && b[1] == Utf32Bytes(c, big)[1] && b[2] == Utf32Bytes(c, big)[2] && b[3] == Utf32Bytes(c, big)[3];
    var n := c as int;
    assert n == n / 65536 * 65536 + n / 256 % 256 * 256 + n % 256;
  }

  // ---- ASCII documents ---------------------------------------------------

  function ToBytes(t: Text): (r: Bytes)
    requires IsAscii(t)
    ensures |r| == |t|
  {
    seq(|t|, i requires 0 <= i < |t| => t[i] as int as Byte)
  }

  lemma {:induction false} Utf8OfAscii(t: Text)
    requires IsAscii(t)
    ensures FromUtf8(ToBytes(t)) == Some(t)
  {
    if t != [] {
      Utf8OfAscii(t[1..]);
      assert ToBytes(t)[1..] == ToBytes(t[1..]);
      assert t == [t[0]] + t[1..];
    }
  }

  lemma DocumentOfAscii(t: Text)
    requires IsAscii(t) && |t| >= 2 && t[0] != 0 && t[1] != 0
    ensures DocumentText(ToBytes(t)) == Some(t)
  {
    var b := ToBytes(t);
    assert b[0] as int == t[0] as int && b[1] as int == t[1] as int;
    assert Detect(b) == Utf8;
    Utf8OfAscii(t);
  }

  // ---- detection ---------------------------------------------------------

  /** The first bytes of a document that starts with an ASCII character, in each encoding. */
  lemma FirstBytes(t: Text, big: bool)
    requires |t| >= 2 && 0 < t[0] < 128 && t[1] != 0
    ensures Detect(ToUtf8(t)) == Utf8
    ensures Detect(ToUtf16(t, big)) == if big then Utf16Big else Utf16Little
    ensures Detect(ToUtf32(t, big)) == if big then Utf32Big else Utf32Little
  {
    FirstOf8(t);
    FirstOf16(t, big);
    FirstOf32(t, big);
    hide *;
  }

  lemma NoMark(b: Bytes)
    requires b != [] && b[0] < 128 && (b[0] == 0 ==> |b| >= 3 && (b[1] != 0 || b[2] == 0))
    ensures !(MARK_32_BIG <= b) && !(MARK_32_LITTLE <= b) && !(MARK_16_BIG <= b) && !(MARK_16_LITTLE <= b) && !(MARK_8 <= b)
  {
  }

  lemma FirstOf8(t: Text)
    requires |t| >= 2 && 0 < t[0] < 128 && t[1] != 0
    ensures Detect(ToUtf8(t)) == Utf8
  {
    var b, rest := ToUtf8(t), ToUtf8(t[1..][1..]);
    assert ToUtf8(t[1..]) == Utf8Bytes(t[1]) + rest;
    assert Utf8Bytes(t[1])[0] != 0;
    assert b == Utf8Bytes(t[0]) + (Utf8Bytes(t[1]) + rest);
    assert b[0] == Utf8Bytes(t[0])[0] && b[1] == Utf8Bytes(t[1])[0];
    hide ToUtf8, Utf8Bytes;
    NoMark(b);
  }

  lemma FirstOf16(t: Text, big: bool)
    requires |t| >= 2 && 0 < t[0] < 128 && t[1] != 0
    ensures Detect(ToUtf16(t, big)) == if big then Utf16Big else Utf16Little
  {
    var b, rest := ToUtf16(t, big), ToUtf16(t[1..][1..], big);
    var second := Utf16Bytes(t[1], big);
    assert ToUtf16(t[1..], big) == second + rest;
    assert second[0] != 0 || second[1] != 0;
    assert b == Utf16Bytes(t[0], big) + (second + rest);
    assert b[0] == Utf16Bytes(t[0], big)[0] && b[1] == Utf16Bytes(t[0], big)[1] && b[2] == second[0] && b[3] == second[1];
    hide ToUtf16;
    NoMark(b);
  }

  lemma FirstOf32(t: Text, big: bool)
    requires |t| >= 2 && 0 < t[0] < 128
    ensures Detect(ToUtf32(t, big)) == if big then Utf32Big else Utf32Little
  {
    var b, first := ToUtf32(t, big), Utf32Bytes(t[0], big);
    assert b == first + ToUtf32(t[1..], big);
    assert b[0] == first[0] && b[1] == first[1] && b[2] == first[2] && b[3] == first[3];
    hide ToUtf32;
    NoMark(b);
  }

  /** A document whose first character is ASCII, and its second not NUL, is read as it stands from UTF-8,
      from UTF-32 of either byte order, and from UTF-16 if it has no split pair. */
  lemma AnyEncoding(t: Text, big: bool)
    requires |t| >= 2 && 0 < t[0] < 128 && t[1] != 0
    ensures DocumentText(ToUtf8(t)) == Some(t)
    ensures DocumentText(ToUtf32(t, big)) == Some(t)
    ensures !HasSplitPair(t) ==> DocumentText(ToUtf16(t, big)) == Some(t)
  {
    FirstBytes(t, big);
    Utf8Exactly(ToUtf8(t), t);
    Utf32RoundTrip(t, big);
    if !HasSplitPair(t) {
      Utf16RoundTrip(t, big);
    }
    hide Detect, FromUtf8, FromUtf16, FromUtf32, ToUtf8, ToUtf16, ToUtf32;
  }

  /** A byte order mark decides the encoding, and is not part of the text. */
  lemma MarkedDocument(t: Text)
    ensures DocumentText([0xEF, 0xBB, 0xBF] + ToUtf8(t)) == Some(t)
    ensures DocumentText([0x00, 0x00, 0xFE, 0xFF] + ToUtf32(t, true)) == Some(t)
    ensures DocumentText([0xFF, 0xFE, 0x00, 0x00] + ToUtf32(t, false)) == Some(t)
    ensures !HasSplitPair(t) ==> DocumentText([0xFE, 0xFF] + ToUtf16(t, true)) == Some(t)
    ensures !HasSplitPair(t) && t != [] && t[0] != 0 ==> DocumentText([0xFF, 0xFE] + ToUtf16(t, false)) == Some(t)
  {
    Utf8Exactly(ToUtf8(t), t);
    Utf32RoundTrip(t, true);
    Utf32RoundTrip(t, false);
    if !HasSplitPair(t) {
      Utf16RoundTrip(t, true);
      Utf16RoundTrip(t, false);
    }
    hide FromUtf8, FromUtf16, FromUtf32, ToUtf8, ToUtf32, HasSplitPair;
    After8(ToUtf8(t));
    After32(ToUtf32(t, true), true);
    After32(ToUtf32(t, false), false);
    After16(ToUtf16(t, true), true);
    if t != [] && t[0] != 0 {
      NotNul(t);
      hide ToUtf16;
      After16(ToUtf16(t, false), false);
    }
  }

  lemma NotNul(t: Text)
    requires t != [] && t[0] != 0
    ensures var b := ToUtf16(t, false); |b| >= 2 && (b[0] != 0 || b[1] != 0)
  {
    var b := Utf16Bytes(t[0], false);
    assert b[0] != 0 || b[1] != 0;
  }

  lemma After8(rest: Bytes)
    ensures DocumentText([0xEF, 0xBB, 0xBF] + rest) == FromUtf8(rest)
  {
    var b := [0xEF, 0xBB, 0xBF] + rest;
    assert b[3..] == rest && MARK_8 <= b;
    NoPrefix(MARK_32_BIG, b, 0);
    NoPrefix(MARK_32_LITTLE, b, 0);
    NoPrefix(MARK_16_BIG, b, 0);
    NoPrefix(MARK_16_LITTLE, b, 0);
    assert Detect(b) == Utf8Marked;
    hide FromUtf8;
  }

  lemma After32(rest: Bytes, big: bool)
    ensures DocumentText((if big then [0x00, 0x00, 0xFE, 0xFF] else [0xFF, 0xFE, 0x00, 0x00]) + rest) == FromUtf32(rest, big)
  {
    var b := (if big then [0x00, 0x00, 0xFE, 0xFF] else [0xFF, 0xFE, 0x00, 0x00]) + rest;
    assert b[4..] == rest;
    assert Detect(b) == Utf32Marked;
    hide FromUtf32;
  }

  lemma After16(rest: Bytes, big: bool)
    requires !big ==> |rest| >= 2 && (rest[0] != 0 || rest[1] != 0)
    ensures DocumentText((if big then [0xFE, 0xFF] else [0xFF, 0xFE]) + rest) == FromUtf16(rest, big)
  {
    var b: Bytes := (if big then [0xFE, 0xFF] else [0xFF, 0xFE]) + rest;
    assert b[2..] == rest;
    if big {
      NoPrefix(MARK_32_LITTLE, b, 0);
      assert MARK_16_BIG <= b;
    } else {
      assert b[2] == rest[0] && b[3] == rest[1];
      NoPrefix(MARK_32_LITTLE, b, if rest[0] != 0 then 2 else 3);
      assert MARK_16_LITTLE <= b;
    }
    NoPrefix(MARK_32_BIG, b, 0);
    assert Detect(b) == Utf16Marked;
    hide FromUtf16;
  }
}
