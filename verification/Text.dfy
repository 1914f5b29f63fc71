/** Strings as sequences of code points, surrogates included, as Python's str holds them. */
module Text {
  import opened Common

  newtype CodePoint = c: int | 0 <= c <= 0x10FFFF
  type Text = seq<CodePoint>

  /** A string literal of plain characters. */
  function Ascii(s: string): (r: Text)
    ensures |r| == |s|
    ensures forall i | 0 <= i < |s| :: r[i] as int == s[i] as int
  {
    seq(|s|, i requires 0 <= i < |s| => s[i] as int as CodePoint)
  }

  predicate IsAscii(t: Text) {
    forall i | 0 <= i < |t| :: t[i] < 128
  }

  predicate IsHigh(c: CodePoint) {
    0xD800 <= c <= 0xDBFF
  }

  predicate IsLow(c: CodePoint) {
    0xDC00 <= c <= 0xDFFF
  }

  predicate IsPair(s: Text, i: nat)
    requires i + 1 < |s|
  {
    IsHigh(s[i]) && IsLow(s[i + 1])
  }

  /** Some astral character is present as two separate surrogate code points. */
  predicate HasSplitPair(s: Text) {
    exists i: nat :: i + 1 < |s| && IsPair(s, i)
  }

  function Combine(h: CodePoint, l: CodePoint): (c: CodePoint)
    requires IsHigh(h) && IsLow(l)
    ensures c >= 0x10000
  {
    0x10000 + (h - 0xD800) * 0x400 + (l - 0xDC00)
  }

  /** The string with every split pair joined into the character it denotes. */
  function Canon(s: Text): (r: Text)
    ensures |r| <= |s| && (s != [] ==> r != [])
  {
    if |s| < 2 then s
    else if IsPair(s, 0) then [Combine(s[0], s[1])] + Canon(s[2..])
    else [s[0]] + Canon(s[1..])
  }

  lemma {:induction false} CanonFixesExactly(s: Text)
    ensures Canon(s) == s <==> !HasSplitPair(s)
    decreases |s|
  {
    if |s| >= 2 {
      if IsPair(s, 0) {
        assert |Canon(s)| < |s|;
      } else {
        var tail := s[1..];
        CanonFixesExactly(tail);
        assert s == [s[0]] + tail;
        if HasSplitPair(tail) {
          var i: nat :| i + 1 < |tail| && IsPair(tail, i);
          assert IsPair(s, i + 1);
        }
        if HasSplitPair(s) {
          var i: nat :| i + 1 < |s| && IsPair(s, i);
          assert IsPair(tail, i - 1);
        }
      }
    }
  }

  lemma {:induction false} CanonFirst(s: Text)
    requires s != []
    ensures Canon(s)[0] == s[0] || Canon(s)[0] >= 0x10000
  {
  }

  lemma {:induction false} CanonIsCanonical(s: Text)
    ensures !HasSplitPair(Canon(s))
    decreases |s|
  {
    if |s| >= 2 {
      var tail := if IsPair(s, 0) then s[2..] else s[1..];
      CanonIsCanonical(tail);
      var r := Canon(s);
      assert r[1..] == Canon(tail);
      if tail != [] {
        CanonFirst(tail);
      }
      if HasSplitPair(r) {
        var i: nat :| i + 1 < |r| && IsPair(r, i);
        if i > 0 {
          assert IsPair(Canon(tail), i - 1);
        }
      }
    }
  }

  // ---- whitespace --------------------------------------------------------

  /** `str.isspace` for one character. */
  predicate IsSpace(c: CodePoint) {
    || 9 <= c <= 13 || 28 <= c <= 32 || c == 0x85 || c == 0xA0 || c == 0x1680
    || 0x2000 <= c <= 0x200A || c == 0x2028 || c == 0x2029 || c == 0x202F || c == 0x205F || c == 0x3000
  }

  /** The 29 white space characters, one by one. */
  lemma SpaceExactly(c: CodePoint)
    ensures IsSpace(c) <==>
              c in [0x9, 0xA, 0xB, 0xC, 0xD, 0x1C, 0x1D, 0x1E, 0x1F, 0x20, 0x85, 0xA0, 0x1680,
                    0x2000, 0x2001, 0x2002, 0x2003, 0x2004, 0x2005, 0x2006, 0x2007, 0x2008, 0x2009, 0x200A,
                    0x2028, 0x2029, 0x202F, 0x205F, 0x3000]
  {
  }

  function StripLeft(s: Text): (r: Text)
    ensures |r| <= |s|
  {
    if s != [] && IsSpace(s[0]) then StripLeft(s[1..]) else s
  }

  function StripRight(s: Text): (r: Text)
    ensures |r| <= |s|
  {
    if s != [] && IsSpace(s[|s| - 1]) then StripRight(s[..|s| - 1]) else s
  }

  function Strip(s: Text): (r: Text) {
    StripRight(StripLeft(s))
  }

  predicate AllSpace(s: Text) {
    forall i | 0 <= i < |s| :: IsSpace(s[i])
  }

  predicate Stripped(s: Text) {
    s != [] ==> !IsSpace(s[0]) && !IsSpace(s[|s| - 1])
  }

  lemma {:induction false} StripLeftSplits(s: Text) returns (pre: Text)
    ensures s == pre + StripLeft(s) && AllSpace(pre)
    ensures StripLeft(s) != [] ==> !IsSpace(StripLeft(s)[0])
  {
    hide IsSpace;
    if s != [] && IsSpace(s[0]) {
      var rest := StripLeftSplits(s[1..]);
      pre := [s[0]] + rest;
      Assoc([s[0]], rest, StripLeft(s));
      assert s == [s[0]] + s[1..];
    } else {
      pre := [];
    }
  }

  lemma {:induction false} StripRightSplits(s: Text) returns (post: Text)
    ensures s == StripRight(s) + post && AllSpace(post)
    ensures StripRight(s) != [] ==> !IsSpace(StripRight(s)[|StripRight(s)| - 1])
  {
    hide IsSpace;
    if s != [] && IsSpace(s[|s| - 1]) {
      var last, init := [s[|s| - 1]], s[..|s| - 1];
      var rest := StripRightSplits(init);
      post := rest + last;
      Assoc(StripRight(s), rest, last);
      assert s == init + last;
    } else {
      post := [];
      assert s + [] == s;
    }
  }

  lemma {:induction false} StripLeftOf(pre: Text, s: Text)
    requires AllSpace(pre) && (s != [] ==> !IsSpace(s[0]))
    ensures StripLeft(pre + s) == s
  {
    hide IsSpace;
    if pre == [] {
      assert pre + s == s;
    } else {
      assert (pre + s)[1..] == pre[1..] + s;
      StripLeftOf(pre[1..], s);
    }
  }

  lemma {:induction false} StripRightOf(s: Text, post: Text)
    requires AllSpace(post) && (s != [] ==> !IsSpace(s[|s| - 1]))
    ensures StripRight(s + post) == s
    decreases |post|
  {
    hide IsSpace;
    if post == [] {
      assert s + post == s;
    } else {
      assert (s + post)[..|s + post| - 1] == s + post[..|post| - 1];
      StripRightOf(s, post[..|post| - 1]);
    }
  }

  /** Stripping takes white space off both ends, and nothing else. */
  lemma StripExactly(s: Text) returns (pre: Text, post: Text)
    ensures s == pre + Strip(s) + post && AllSpace(pre) && AllSpace(post) && Stripped(Strip(s))
  {
    pre := StripLeftSplits(s);
    post := StripRightSplits(StripLeft(s));
    hide IsSpace;
    Assoc(pre, Strip(s), post);
    assert Strip(s) != [] ==> Strip(s)[0] == StripLeft(s)[0];
  }

  lemma StripOf(pre: Text, s: Text, post: Text)
    requires AllSpace(pre) && AllSpace(post) && Stripped(s) && s != []
    ensures Strip(pre + s + post) == s
  {
    hide IsSpace;
    Assoc(pre, s, post);
    assert (s + post)[0] == s[0];
    StripLeftOf(pre, s + post);
    StripRightOf(s, post);
  }

  predicate NoSpace(s: Text) {
    forall c | c in s :: !IsSpace(c)
  }

  lemma StripNothing(s: Text)
    requires NoSpace(s)
    ensures Strip(s) == s
  {
    if s != [] {
      assert s[0] in s && s[|s| - 1] in s;
    }
  }

  // ---- decimal numerals --------------------------------------------------

  predicate IsDigit(c: CodePoint) {
    48 <= c <= 57
  }

  predicate AllDigits(s: Text) {
    forall i | 0 <= i < |s| :: IsDigit(s[i])
  }

  function Decimal(n: nat): (r: Text)
    ensures r != [] && AllDigits(r)
    ensures r[0] == 48 <==> n == 0
    ensures n < 10 ==> |r| == 1
  {
    if n < 10 then [(48 + n) as CodePoint] else Decimal(n / 10) + [(48 + n % 10) as CodePoint]
  }

  function IntText(n: int): (r: Text)
    ensures r != []
  {
    if n < 0 then [45] + Decimal(-n) else Decimal(n)
  }

  function Pow10(k: nat): (p: nat)
    ensures p > 0
  {
    if k == 0 then 1 else 10 * Pow10(k - 1)
  }

  /** The k-th character from the right is the k-th digit. */
  lemma {:induction false} DecimalExactly(n: nat, k: nat)
    requires k < |Decimal(n)|
    ensures Decimal(n)[|Decimal(n)| - 1 - k] as int == 48 + n / Pow10(k) % 10
    ensures n < Pow10(|Decimal(n)|)
    decreases n
  {
    if n >= 10 {
      DecimalExactly(n / 10, if k == 0 then 0 else k - 1);
      if k > 0 {
        DivTwice(n, Pow10(k - 1));
      }
    }
  }

  lemma DivTwice(n: nat, p: nat)
    requires p > 0
    ensures n / 10 / p == n / (10 * p)
  {
    var q, r := n / 10 / p, n / 10 % p;
    assert n / 10 == q * p + r;
    var low := n % 10 + 10 * r;
    assert n == q * (10 * p) + low && low < 10 * p;
    DivMod(q, 10 * p, low);
  }

  function Value(digits: Text): (n: nat)
    requires AllDigits(digits)
  {
    if digits == [] then 0
    else Value(digits[..|digits| - 1]) * 10 + (digits[|digits| - 1] as int - 48)
  }

  lemma {:induction false} ValueOfDecimal(n: nat)
    ensures Value(Decimal(n)) == n
  {
    if n >= 10 {
      ValueOfDecimal(n / 10);
      assert Decimal(n)[..|Decimal(n)| - 1] == Decimal(n / 10);
    } else {
      assert Decimal(n)[..0] == [];
    }
  }

  /** The longest run of digits at the front. */
  function TakeDigits(s: Text): (r: Text)
    ensures r <= s && AllDigits(r)
    ensures |r| < |s| ==> !IsDigit(s[|r|])
  {
    if s != [] && IsDigit(s[0]) then [s[0]] + TakeDigits(s[1..]) else []
  }

  lemma {:induction false} TakeDigitsOf(digits: Text, rest: Text)
    requires AllDigits(digits) && (rest != [] ==> !IsDigit(rest[0]))
    ensures TakeDigits(digits + rest) == digits
  {
    if digits == [] {
      assert digits + rest == rest;
    } else {
      assert (digits + rest)[1..] == digits[1..] + rest;
      TakeDigitsOf(digits[1..], rest);
    }
  }
}
