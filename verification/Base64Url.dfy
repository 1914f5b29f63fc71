/** RFC 4648 section 5 (base64url) as the standard library writes and, leniently, reads it. */
module Base64Url {
  import opened Common
  import opened SseFraming
  import opened Text

  const PAD: CodePoint := 61

  function Char64(v: nat): (c: CodePoint)
    requires v < 64
    ensures c != PAD && Val64(c) == Some(v)
    ensures IsTokenChar(c)
  {
    if v < 26 then (65 + v) as CodePoint
    else if v < 52 then (71 + v) as CodePoint
    else if v < 62 then (v - 4) as CodePoint
    else if v == 62 then 45 else 95
  }

  /** The alphabet of section 5. */
  predicate IsTokenChar(c: CodePoint) {
    65 <= c <= 90 || 97 <= c <= 122 || 48 <= c <= 57 || c == 45 || c == 95
  }

  /** The decoder also accepts the two characters of the standard alphabet. */
  function Val64(c: CodePoint): (v: Option<nat>)
    ensures v.Some? ==> v.value < 64
  {
    if 65 <= c <= 90 then Some(c as int - 65)
    else if 97 <= c <= 122 then Some(c as int - 71)
    else if 48 <= c <= 57 then Some(c as int + 4)
    else if c == 45 || c == 43 then Some(62)
    else if c == 95 || c == 47 then Some(63)
    else None
  }

  function Quad(a: Byte, b: Byte, c: Byte): (r: Text)
    ensures |r| == 4
  {
    var x, y, z := a as int, b as int, c as int;
    [Char64(x / 4), Char64(x % 4 * 16 + y / 16), Char64(y % 16 * 4 + z / 64), Char64(z % 64)]
  }

  /** `urlsafe_b64encode`, padding included. */
  function Padded(b: Bytes): (r: Text)
    decreases |b|
  {
    if |b| == 0 then []
    else if |b| == 1 then Quad(b[0], 0, 0)[..2] + [PAD, PAD]
    else if |b| == 2 then Quad(b[0], b[1], 0)[..3] + [PAD]
    else Quad(b[0], b[1], b[2]) + Padded(b[3..])
  }

  function DropPads(t: Text): (r: Text)
  {
    if t != [] && t[|t| - 1] == PAD then DropPads(t[..|t| - 1]) else t
  }

  /** The token form: no padding. */
  function Unpadded(b: Bytes): (r: Text) {
    DropPads(Padded(b))
  }

  function Pads(n: nat): (r: Text)
    ensures |r| == n
  {
    if n == 0 then [] else Pads(n - 1) + [PAD]
  }

  function Repad(t: Text): (r: Text) {
    t + Pads((-|t|) % 4)
  }

  /** The reader's automaton: position in the group of four, bits left over, pads seen.
      Characters outside the alphabet are skipped; a complete padding ends the input. */
  function Read(t: Text, quad: nat, left: nat, pads: nat): (r: Option<Bytes>)
    requires quad < 4 && left < 64
    decreases |t|
  {
    if t == [] then (if quad == 0 then Some([]) else None)
    else if t[0] == PAD then
      if quad >= 2 && quad + pads + 1 >= 4 then Some([])
      else Read(t[1..], quad, left, if quad >= 2 then pads + 1 else pads)
    else match Val64(t[0])
      case None => Read(t[1..], quad, left, pads)
      case Some(v) =>
        if quad == 0 then Read(t[1..], 1, v, 0)
        else if quad == 1 then Emit(left * 4 + v / 16, Read(t[1..], 2, v % 16, 0))
        else if quad == 2 then Emit(left * 16 + v / 4, Read(t[1..], 3, v % 4, 0))
        else Emit(left * 64 + v, Read(t[1..], 0, 0, 0))
  }

  function Emit(v: nat, rest: Option<Bytes>): (r: Option<Bytes>) {
    match rest
    case None => None
    case Some(b) => Some([(v % 256) as Byte] + b)
  }

  function Decoded(token: Text): (r: Option<Bytes>) {
    Read(Repad(token), 0, 0, 0)
  }

  lemma QuadArithmetic(a: int, b: int, c: int)
    requires 0 <= a < 256 && 0 <= b < 256 && 0 <= c < 256
    ensures (a / 4) * 4 + (a % 4 * 16 + b / 16) / 16 == a
    ensures (a % 4 * 16 + b / 16) % 16 == b / 16
    ensures (b / 16) * 16 + (b % 16 * 4 + c / 64) / 4 == b
    ensures (b % 16 * 4 + c / 64) % 4 == c / 64
    ensures (c / 64) * 64 + c % 64 == c
  {
  }

  lemma ReadFirst(c: CodePoint, rest: Text, v: nat)
    requires Val64(c) == Some(v) && c != PAD
    ensures Read([c] + rest, 0, 0, 0) == Read(rest, 1, v, 0)
  {
    assert ([c] + rest)[1..] == rest;
  }

  lemma ReadSecond(c: CodePoint, rest: Text, v: nat, left: nat)
    requires Val64(c) == Some(v) && c != PAD && left < 64
    ensures Read([c] + rest, 1, left, 0) == Emit(left * 4 + v / 16, Read(rest, 2, v % 16, 0))
  {
    assert ([c] + rest)[1..] == rest;
  }

  lemma ReadThird(c: CodePoint, rest: Text, v: nat, left: nat)
    requires Val64(c) == Some(v) && c != PAD && left < 64
    ensures Read([c] + rest, 2, left, 0) == Emit(left * 16 + v / 4, Read(rest, 3, v % 4, 0))
  {
    assert ([c] + rest)[1..] == rest;
  }

  lemma ReadFourth(c: CodePoint, rest: Text, v: nat, left: nat)
    requires Val64(c) == Some(v) && c != PAD && left < 64
    ensures Read([c] + rest, 3, left, 0) == Emit(left * 64 + v, Read(rest, 0, 0, 0))
  {
    assert ([c] + rest)[1..] == rest;
  }

  lemma {:induction false} ReadQuad(a: Byte, b: Byte, c: Byte, rest: Text)
    ensures Read(Quad(a, b, c) + rest, 0, 0, 0)
            == Emit(a as int, Emit(b as int, Emit(c as int, Read(rest, 0, 0, 0))))
  {
    hide Read, Emit;
    var x, y, z := a as int, b as int, c as int;
    QuadArithmetic(x, y, z);
    var q := Quad(a, b, c);
    assert q + rest == [q[0]] + ([q[1]] + ([q[2]] + ([q[3]] + rest)));
    ReadFirst(q[0], [q[1]] + ([q[2]] + ([q[3]] + rest)), x / 4);
    ReadSecond(q[1], [q[2]] + ([q[3]] + rest), x % 4 * 16 + y / 16, x / 4);
    ReadThird(q[2], [q[3]] + rest, y % 16 * 4 + z / 64, y / 16);
    ReadFourth(q[3], rest, z % 64, z / 64);
  }

  lemma {:induction false} ReadEnd(left: nat)
    requires left < 64
    ensures Read([PAD, PAD], 2, left, 0) == Some([])
    ensures Read([PAD], 3, left, 0) == Some([])
  {
    assert [PAD, PAD][1..] == [PAD];
    assert Read([PAD], 2, left, 1) == Some([]);
  }

  lemma EmitLast(a: Byte)
    ensures Emit(a as int, Some([])) == Some([a])
  {
    assert [a] + [] == [a];
  }

  lemma {:induction false} ReadOneLeft(a: Byte)
    ensures Read(Quad(a, 0, 0)[..2] + [PAD, PAD], 0, 0, 0) == Some([a])
  {
    hide Read;
    var x := a as int;
    QuadArithmetic(x, 0, 0);
    var q := Quad(a, 0, 0);
    assert q[..2] + [PAD, PAD] == [q[0]] + ([q[1]] + [PAD, PAD]);
    ReadFirst(q[0], [q[1]] + [PAD, PAD], x / 4);
    ReadSecond(q[1], [PAD, PAD], x % 4 * 16, x / 4);
    ReadEnd(x % 4 * 16 % 16);
    EmitLast(a);
  }

  lemma {:induction false} ReadTwoLeft(a: Byte, b: Byte)
    ensures Read(Quad(a, b, 0)[..3] + [PAD], 0, 0, 0) == Some([a, b])
  {
    hide Read;
    var x, y := a as int, b as int;
    QuadArithmetic(x, y, 0);
    var q := Quad(a, b, 0);
    assert q[..3] + [PAD] == [q[0]] + ([q[1]] + ([q[2]] + [PAD]));
    ReadFirst(q[0], [q[1]] + ([q[2]] + [PAD]), x / 4);
    ReadSecond(q[1], [q[2]] + [PAD], x % 4 * 16 + y / 16, x / 4);
    ReadThird(q[2], [PAD], y % 16 * 4, y / 16);
    ReadEnd(y % 16 * 4 % 4);
    EmitLast(b);
    assert [a] + [b] == [a, b];
  }

  lemma {:induction false} ReadPadded(b: Bytes)
    ensures Read(Padded(b), 0, 0, 0) == Some(b)
    decreases |b|
  {
    hide Read;
    if |b| == 0 {
      ReadNothing();
    } else if |b| == 1 {
      ReadOneLeft(b[0]);
      assert b == [b[0]];
    } else if |b| == 2 {
      ReadTwoLeft(b[0], b[1]);
      assert b == [b[0], b[1]];
    } else {
      ReadPadded(b[3..]);
      ReadQuad(b[0], b[1], b[2], Padded(b[3..]));
      EmitThree(b);
    }
  }

  lemma EmitThree(b: Bytes)
    requires |b| >= 3
    ensures Emit(b[0] as int, Emit(b[1] as int, Emit(b[2] as int, Some(b[3..])))) == Some(b)
  {
    var b0, b1, b2 := b[0], b[1], b[2];
    assert Emit(b2 as int, Some(b[3..])) == Some([b2] + b[3..]);
    assert Emit(b1 as int, Some([b2] + b[3..])) == Some([b1] + ([b2] + b[3..]));
    assert b == [b0] + ([b1] + ([b2] + b[3..]));
  }

  lemma ReadNothing()
    ensures Read([], 0, 0, 0) == Some([])
  {
  }

  /** How many pads the encoder writes for `n` bytes. */
  function PadCount(n: nat): (k: nat)
  {
    (3 - n % 3) % 3
  }

  lemma PadCountStep(n: nat)
    requires n >= 3
    ensures PadCount(n) == PadCount(n - 3) && (n + 2) / 3 == (n - 3 + 2) / 3 + 1
  {
  }

  lemma QuadPrefix(a: Byte, b: Byte, c: Byte, rest: Text, pads: nat) returns (body: Text)
    requires forall c | c in rest :: IsTokenChar(c)
    ensures body + Pads(pads) == Quad(a, b, c) + (rest + Pads(pads))
    ensures forall c | c in body :: IsTokenChar(c)
  {
    body := Quad(a, b, c) + rest;
    Assoc(Quad(a, b, c), rest, Pads(pads));
  }

  lemma {:induction false} PaddedShape(b: Bytes) returns (body: Text)
    ensures Padded(b) == body + Pads(PadCount(|b|))
    ensures forall c | c in body :: IsTokenChar(c)
    ensures |Padded(b)| == (|b| + 2) / 3 * 4
    decreases |b|
  {
    hide Quad, IsTokenChar;
    if |b| == 0 {
      body := [];
    } else if |b| == 1 {
      QuadIsToken(b[0], 0, 0);
      body := Quad(b[0], 0, 0)[..2];
    } else if |b| == 2 {
      QuadIsToken(b[0], b[1], 0);
      body := Quad(b[0], b[1], 0)[..3];
    } else {
      var rest := PaddedShape(b[3..]);
      PadCountStep(|b|);
      body := QuadPrefix(b[0], b[1], b[2], rest, PadCount(|b|));
    }
  }

  lemma QuadIsToken(a: Byte, b: Byte, c: Byte)
    ensures forall d | d in Quad(a, b, c) :: IsTokenChar(d)
  {
  }

  lemma DropOnePad(t: Text)
    ensures DropPads(t + [PAD]) == DropPads(t)
  {
    assert (t + [PAD])[..|t|] == t;
  }

  lemma PadArithmetic(groups: nat, pads: nat, m: int)
    requires m + pads == groups * 4 && pads < 3
    ensures (-m) % 4 == pads && m % 4 != 1
  {
  }

  lemma {:induction false} DropPadsExactly(t: Text, k: nat)
    requires t == [] || t[|t| - 1] != PAD
    ensures DropPads(t + Pads(k)) == t
    decreases k
  {
    if k == 0 {
      assert t + Pads(0) == t;
    } else {
      DropPadsExactly(t, k - 1);
      Assoc(t, Pads(k - 1), [PAD]);
      DropOnePad(t + Pads(k - 1));
    }
  }

  /** Tokens use the section 5 alphabet only, and `-len % 4` pads always restore the padded form. */
  lemma UnpaddedRestores(b: Bytes)
    ensures forall c | c in Unpadded(b) :: IsTokenChar(c)
    ensures Repad(Unpadded(b)) == Padded(b)
    ensures |Unpadded(b)| % 4 != 1
    ensures b != [] ==> Unpadded(b) != []
  {
    var body := PaddedShape(b);
    hide Padded, DropPads, Pads, IsTokenChar;
    NoPadAtEnd(body);
    DropPadsExactly(body, PadCount(|b|));
    PadArithmetic((|b| + 2) / 3, PadCount(|b|), |body|);
  }

  lemma NoPadAtEnd(body: Text)
    requires forall c | c in body :: IsTokenChar(c)
    ensures body != [] ==> body[|body| - 1] != PAD
  {
    if body != [] {
      assert body[|body| - 1] in body;
    }
  }

  /** Encoding to a token and reading it back is the identity on all byte strings. */
  lemma RoundTrip(b: Bytes)
    ensures Decoded(Unpadded(b)) == Some(b)
  {
    UnpaddedRestores(b);
    ReadPadded(b);
  }

  /** A token that still has its padding, of equals signs, is read as well. */
  lemma PaddedToken(b: Bytes)
    ensures Padded(b) == Unpadded(b) + seq(PadCount(|b|), _ => 61)
    ensures Decoded(Padded(b)) == Some(b)
  {
    PaddedIs(b);
    PadsAreEquals(PadCount(|b|));
    hide *;
    ReadPadded(b);
    WholeGroups(b);
  }

  lemma PaddedIs(b: Bytes)
    ensures Padded(b) == Unpadded(b) + Pads(PadCount(|b|))
  {
    var body := PaddedShape(b);
    hide Padded, DropPads, Pads, PadCount, IsTokenChar;
    NoPadAtEnd(body);
    DropPadsExactly(body, PadCount(|b|));
  }

  lemma WholeGroups(b: Bytes)
    ensures Decoded(Padded(b)) == Read(Padded(b), 0, 0, 0)
  {
    var body := PaddedShape(b);
    hide Padded, Read;
    NoPadsMissing((|b| + 2) / 3);
    assert Padded(b) + [] == Padded(b);
  }

  lemma NoPadsMissing(groups: nat)
    ensures (-(groups * 4)) % 4 == 0
  {
  }

  lemma {:induction false} PadsAreEquals(n: nat)
    ensures Pads(n) == seq(n, _ => 61)
  {
    if n > 0 {
      PadsAreEquals(n - 1);
    }
  }

  // ---- the encoding, bit by bit ------------------------------------------

  /** Table 2 of RFC 4648. */
  const ALPHABET := "ABCDEFGHIJKLMNOPQRSTUVWXYZ" + "abcdefghijklmnopqrstuvwxyz" + "0123456789-_"

  function ByteAt(b: Bytes, i: nat): (v: nat)
    ensures v < 256
  {
    if i < |b| then b[i] as int else 0
  }

  /** The 24 bits of a group of three bytes, zeros standing for missing ones. */
  function Group(b: Bytes, g: nat): (v: nat) {
    ByteAt(b, 3 * g) * 65536 + ByteAt(b, 3 * g + 1) * 256 + ByteAt(b, 3 * g + 2)
  }

  /** The j-th of the four digits to the base 64. */
  function Digit(v: nat, j: nat): (d: nat)
    ensures d < 64
  {
    if j == 0 then v / 262144 % 64 else if j == 1 then v / 4096 % 64 else if j == 2 then v / 64 % 64 else v % 64
  }

  lemma UpperDigits(v: nat)
    requires v < 26
    ensures |ALPHABET| == 64 && Char64(v) as int == ALPHABET[v] as int
  {
    assert ALPHABET[v] == "ABCDEFGHIJKLMNOPQRSTUVWXYZ"[v];
  }

  lemma LowerDigits(v: nat)
    requires 26 <= v < 52
    ensures |ALPHABET| == 64 && Char64(v) as int == ALPHABET[v] as int
  {
    assert ALPHABET[v] == "abcdefghijklmnopqrstuvwxyz"[v - 26];
  }

  lemma OtherDigits(v: nat)
    requires 52 <= v < 64
    ensures |ALPHABET| == 64 && Char64(v) as int == ALPHABET[v] as int
  {
    assert ALPHABET[v] == "0123456789-_"[v - 52];
  }

  lemma AlphabetChar(v: nat)
    requires v < 64
    ensures |ALPHABET| == 64 && Char64(v) as int == ALPHABET[v] as int
  {
    hide Char64;
    if v < 26 {
      UpperDigits(v);
    } else if v < 52 {
      LowerDigits(v);
    } else {
      OtherDigits(v);
    }
  }

  lemma QuadDigits(a: Byte, b: Byte, c: Byte, j: nat)
    requires j < 4
    ensures |ALPHABET| == 64
    ensures Quad(a, b, c)[j] as int == ALPHABET[Digit(a as int * 65536 + b as int * 256 + c as int, j)] as int
  {
    var x, y, z := a as int, b as int, c as int;
    DigitArithmetic(x, y, z);
    AlphabetChar(Digit(x * 65536 + y * 256 + z, j));
    hide Char64;
  }

  lemma DigitArithmetic(x: int, y: int, z: int)
    requires 0 <= x < 256 && 0 <= y < 256 && 0 <= z < 256
    ensures var v := x * 65536 + y * 256 + z;
            && v / 262144 % 64 == x / 4
            && v / 4096 % 64 == x % 4 * 16 + y / 16
            && v / 64 % 64 == y % 16 * 4 + z / 64
            && v % 64 == z % 64
  {
    FirstDigit(x, y, z);
    SecondDigit(x, y, z);
    ThirdDigit(x, y, z);
    FourthDigit(x, y, z);
  }

  lemma FirstDigit(x: int, y: int, z: int)
    requires 0 <= x < 256 && 0 <= y < 256 && 0 <= z < 256
    ensures (x * 65536 + y * 256 + z) / 262144 % 64 == x / 4
  {
    DivMod(x / 4, 262144, x % 4 * 65536 + y * 256 + z);
    DivMod(0, 64, x / 4);
  }

  lemma SecondDigit(x: int, y: int, z: int)
    requires 0 <= x < 256 && 0 <= y < 256 && 0 <= z < 256
    ensures (x * 65536 + y * 256 + z) / 4096 % 64 == x % 4 * 16 + y / 16
  {
    DivMod(x * 16 + y / 16, 4096, y % 16 * 256 + z);
    DivMod(x / 4, 64, x % 4 * 16 + y / 16);
  }

  lemma ThirdDigit(x: int, y: int, z: int)
    requires 0 <= x < 256 && 0 <= y < 256 && 0 <= z < 256
    ensures (x * 65536 + y * 256 + z) / 64 % 64 == y % 16 * 4 + z / 64
  {
    DivMod(x * 1024 + y * 4 + z / 64, 64, z % 64);
    DivMod(x * 16 + y / 16, 64, y % 16 * 4 + z / 64);
  }

  lemma FourthDigit(x: int, y: int, z: int)
    requires 0 <= x < 256 && 0 <= y < 256 && 0 <= z < 256
    ensures (x * 65536 + y * 256 + z) % 64 == z % 64
  {
    DivMod(x * 1024 + y * 4 + z / 64, 64, z % 64);
  }

  /** How many characters the bytes need. */
  function TokenLength(n: nat): (k: nat) {
    n / 3 * 4 + (if n % 3 == 0 then 0 else n % 3 + 1)
  }

  lemma {:induction false} PaddedDigits(b: Bytes, k: nat)
    requires k < TokenLength(|b|)
    ensures |ALPHABET| == 64 && k < |Padded(b)|
    ensures Padded(b)[k] as int == ALPHABET[Digit(Group(b, k / 4), k % 4)] as int
    decreases |b|
  {
    hide Char64, Quad, Digit, ALPHABET;
    if k < 4 {
      QuadDigits(ByteAt(b, 0) as Byte, ByteAt(b, 1) as Byte, ByteAt(b, 2) as Byte, k);
    } else {
      assert |b| >= 3;
      PaddedDigits(b[3..], k - 4);
      LaterGroup(b, k);
      hide Group;
    }
  }

  lemma LaterGroup(b: Bytes, k: nat)
    requires k >= 4 && |b| >= 3
    ensures Group(b[3..], (k - 4) / 4) == Group(b, k / 4) && (k - 4) % 4 == k % 4
  {
    assert (k - 4) / 4 == k / 4 - 1;
  }

  /** The token of any bytes, character by character: base64url without padding. */
  lemma AlphabetExactly(b: Bytes)
    ensures |ALPHABET| == 64 && |Unpadded(b)| == TokenLength(|b|)
    ensures forall k: nat | k < |Unpadded(b)| ::
              Unpadded(b)[k] as int == ALPHABET[Digit(Group(b, k / 4), k % 4)] as int
  {
    AlphabetChar(0);
    UnpaddedLength(b);
    forall k: nat | k < |Unpadded(b)| ensures Unpadded(b)[k] as int == ALPHABET[Digit(Group(b, k / 4), k % 4)] as int {
      PaddedDigits(b, k);
    }
  }

  lemma UnpaddedLength(b: Bytes)
    ensures Unpadded(b) <= Padded(b) && |Unpadded(b)| == TokenLength(|b|)
  {
    var body := PaddedShape(b);
    hide Padded, DropPads, TokenLength, PadCount;
    assert body != [] ==> body[|body| - 1] in body;
    DropPadsExactly(body, PadCount(|b|));
    LengthArithmetic(|b|);
  }

  lemma LengthArithmetic(n: nat)
    ensures (n + 2) / 3 * 4 - PadCount(n) == TokenLength(n)
  {
    DivMod(n / 3, 3, n % 3);
    if n % 3 == 0 {
      DivMod(n / 3, 3, 2);
    } else {
      DivMod(n / 3 + 1, 3, n % 3 - 1);
    }
  }

  /** Whole groups are encoded one by one. */
  lemma UnpaddedCons(b: Bytes)
    requires |b| >= 3
    ensures Unpadded(b) == Quad(b[0], b[1], b[2]) + Unpadded(b[3..])
  {
    var q := Quad(b[0], b[1], b[2]);
    var body := PaddedShape(b[3..]);
    var k := PadCount(|b| - 3);
    Assoc(q, body, Pads(k));
    hide Padded, Quad, PadCount, Pads;
    assert body != [] ==> body[|body| - 1] in body;
    DropPadsExactly(body, k);
    assert Padded(b) == q + (body + Pads(k)) by { PaddedCons(b); }
    assert (q + body)[|q + body| - 1] == if body == [] then q[3] else body[|body| - 1];
    NoPadInQuad(b[0], b[1], b[2]);
    DropPadsExactly(q + body, k);
  }

  lemma PaddedCons(b: Bytes)
    requires |b| >= 3
    ensures Padded(b) == Quad(b[0], b[1], b[2]) + Padded(b[3..])
  {
  }

  lemma NoPadInQuad(a: Byte, b: Byte, c: Byte)
    ensures Quad(a, b, c)[3] != PAD
  {
  }

  lemma UnpaddedEnd(a: Byte, b: Byte)
    ensures Unpadded([a]) == Quad(a, 0, 0)[..2] && Unpadded([a, b]) == Quad(a, b, 0)[..3]
  {
    hide Char64;
    var q, r := Quad(a, 0, 0)[..2], Quad(a, b, 0)[..3];
    DropOnePad(q + [PAD]);
    DropOnePad(q);
    DropOnePad(r);
    assert q + [PAD] + [PAD] == q + [PAD, PAD];
  }

  ghost predicate SameReading(x: Text, y: Text) {
    forall quad: nat, left: nat, pads: nat | quad < 4 && left < 64 :: Read(x, quad, left, pads) == Read(y, quad, left, pads)
  }

  lemma {:induction false} ReadAfter(a: Text, x: Text, y: Text)
    requires SameReading(x, y)
    ensures SameReading(a + x, a + y)
    decreases |a|
  {
    if a == [] {
      assert a + x == x && a + y == y;
    } else {
      assert (a + x)[1..] == a[1..] + x && (a + y)[1..] == a[1..] + y;
      ReadAfter(a[1..], x, y);
      OneMore(a + x, a + y);
    }
  }

  lemma OneMore(x: Text, y: Text)
    requires x != [] && y != [] && x[0] == y[0] && SameReading(x[1..], y[1..])
    ensures SameReading(x, y)
  {
    hide Emit, SameReading, Val64;
    forall quad: nat, left: nat, pads: nat | quad < 4 && left < 64
      ensures Read(x, quad, left, pads) == Read(y, quad, left, pads)
    {
      ReadStep(x, y, quad, left, pads);
    }
    assert SameReading(x, y) by { ReadingsSame(x, y); }
  }

  lemma ReadingsSame(x: Text, y: Text)
    requires forall quad: nat, left: nat, pads: nat | quad < 4 && left < 64 :: Read(x, quad, left, pads) == Read(y, quad, left, pads)
    ensures SameReading(x, y)
  {
    hide Read;
  }

  lemma ReadStep(x: Text, y: Text, quad: nat, left: nat, pads: nat)
    requires quad < 4 && left < 64 && x != [] && y != [] && x[0] == y[0] && SameReading(x[1..], y[1..])
    ensures Read(x, quad, left, pads) == Read(y, quad, left, pads)
  {
    hide Emit;
    if x[0] == PAD {
      assert Read(x[1..], quad, left, if quad >= 2 then pads + 1 else pads)
             == Read(y[1..], quad, left, if quad >= 2 then pads + 1 else pads);
    } else {
      match Val64(x[0])
      case None => assert Read(x[1..], quad, left, pads) == Read(y[1..], quad, left, pads);
      case Some(v) =>
        assert Read(x[1..], 1, v, 0) == Read(y[1..], 1, v, 0);
        assert Read(x[1..], 2, v % 16, 0) == Read(y[1..], 2, v % 16, 0);
        assert Read(x[1..], 3, v % 4, 0) == Read(y[1..], 3, v % 4, 0);
        assert Read(x[1..], 0, 0, 0) == Read(y[1..], 0, 0, 0);
    }
  }

  /** The reader also takes "+" for "-" and "/" for "_", and skips every other character but the pad. */
  lemma OthersSkipped(a: Text, c: CodePoint, b: Text)
    ensures SameReading(a + ([43] + b), a + ([45] + b)) && SameReading(a + ([47] + b), a + ([95] + b))
    ensures !IsTokenChar(c) && c != 43 && c != 47 && c != 61 ==> SameReading(a + ([c] + b), a + b)
  {
    hide SameReading, Read;
    SameSymbol(43, 45, b);
    SameSymbol(47, 95, b);
    ReadAfter(a, [43] + b, [45] + b);
    ReadAfter(a, [47] + b, [95] + b);
    if !IsTokenChar(c) && c != 43 && c != 47 && c != 61 {
      NoSymbol(c, b);
      ReadAfter(a, [c] + b, b);
    }
  }

  lemma SameSymbol(c: CodePoint, d: CodePoint, b: Text)
    requires Val64(c) == Val64(d) && c != PAD && d != PAD
    ensures SameReading([c] + b, [d] + b)
  {
    assert ([c] + b)[1..] == b && ([d] + b)[1..] == b;
    hide Val64, Emit;
  }

  lemma NoSymbol(c: CodePoint, b: Text)
    requires Val64(c).None? && c != PAD
    ensures SameReading([c] + b, b)
  {
    assert ([c] + b)[1..] == b;
    hide Val64, Emit;
  }

  /** A token of alphabet characters that is one longer than a whole number of groups is never decoded. */
  lemma {:induction false} OneTooManyFails(token: Text)
    requires |token| % 4 == 1 && forall i | 0 <= i < |token| :: Val64(token[i]).Some?
    ensures Decoded(token) == None
  {
    assert Pads(1) == [PAD] && Pads(2) == [PAD, PAD] && Pads(3) == [PAD, PAD, PAD];
    assert (-|token|) % 4 == 3;
    ReadOneTooMany(token, 0, 0);
  }

  lemma {:induction false} ReadOneTooMany(t: Text, quad: nat, left: nat)
    requires quad < 4 && left < 64 && (quad + |t|) % 4 == 1
    requires forall i | 0 <= i < |t| :: Val64(t[i]).Some?
    ensures Read(t + [PAD, PAD, PAD], quad, left, 0) == None
    decreases |t|
  {
    if t == [] {
      assert t + [PAD, PAD, PAD] == [PAD, PAD, PAD];
      PadsAreSkipped(left);
    } else {
      var v, rest := Val64(t[0]).value, t[1..];
      assert (t + [PAD, PAD, PAD])[1..] == rest + [PAD, PAD, PAD];
      assert Val64(PAD).None?;
      ReadOneTooMany(rest, (quad + 1) % 4, if quad == 0 then v else if quad == 1 then v % 16 else if quad == 2 then v % 4 else 0);
    }
  }

  lemma PadsAreSkipped(left: nat)
    requires left < 64
    ensures Read([PAD, PAD, PAD], 1, left, 0) == None
  {
    assert [PAD, PAD, PAD][1..] == [PAD, PAD] && [PAD, PAD][1..] == [PAD] && [PAD][1..] == [];
    assert Read([PAD], 1, left, 0) == None;
  }
}
