/** Octets and the blank-line framing of a server-sent event stream (LF LF only). */
module SseFraming {
  import opened Common

  newtype Byte = b: int | 0 <= b < 256
  type Bytes = seq<Byte>

  const LF: Byte := 10
  const CR: Byte := 13

  /** An event ends with the first blank line it contains. */
  ghost predicate IsEvent(e: Bytes) {
    |e| >= 2 && BlankAt(e, |e| - 2) && forall k | 0 <= k < |e| - 2 :: !BlankAt(e, k)
  }

  predicate BlankAt(b: Bytes, k: nat)
    requires k + 1 < |b|
  {
    b[k] == LF && b[k + 1] == LF
  }

  ghost predicate NoBlankLine(b: Bytes) {
    forall k | 0 <= k < |b| - 1 :: !BlankAt(b, k)
  }

  /** What it means, without reference to any algorithm, to cut `b` into events and a rest. */
  ghost predicate IsFraming(events: seq<Bytes>, rest: Bytes, b: Bytes) {
    && Flatten(events) + rest == b
    && (forall i | 0 <= i < |events| :: IsEvent(events[i]))
    && NoBlankLine(rest)
  }

  lemma EventPrefix(b: Bytes, i: nat)
    requires i + 1 < |b| && BlankAt(b, i)
    requires forall k | 0 <= k < i :: !BlankAt(b, k)
    ensures IsEvent(b[..i + 2])
  {
    var e := b[..i + 2];
    assert BlankAt(e, i);
    forall k | 0 <= k < |e| - 2 ensures !BlankAt(e, k) {
      assert !BlankAt(b, k);
    }
  }

  /** `bytes.find(b"\n\n")`. */
  method Find(b: Bytes) returns (i: int)
    ensures i < 0 ==> i == -1 && NoBlankLine(b)
    ensures i >= 0 ==> i + 1 < |b| && IsEvent(b[..i + 2])
  {
    i := 0;
    while i + 1 < |b|
      invariant 0 <= i
      invariant forall k | 0 <= k < i && k + 1 < |b| :: !BlankAt(b, k)
    {
      if BlankAt(b, i) {
        EventPrefix(b, i);
        return;
      }
      i := i + 1;
    }
    i := -1;
  }

  function FirstBlank(b: Bytes, from: nat): (i: int)
    requires from <= |b|
    requires forall k | 0 <= k < from && k + 1 < |b| :: !BlankAt(b, k)
    ensures i == -1 ==> NoBlankLine(b)
    ensures i != -1 ==> from <= i && i + 1 < |b| && IsEvent(b[..i + 2])
    decreases |b| - from
  {
    if from + 1 >= |b| then -1
    else if BlankAt(b, from) then
      EventPrefix(b, from);
      from
    else FirstBlank(b, from + 1)
  }

  /** The events of a whole byte string, split in one go. */
  function Frames(b: Bytes): (events: seq<Bytes>)
    decreases |b|
  {
    var i := FirstBlank(b, 0);
    if i == -1 then [] else [b[..i + 2]] + Frames(b[i + 2..])
  }

  /** The bytes after the last blank line. */
  function Residue(b: Bytes): (rest: Bytes)
    decreases |b|
  {
    var i := FirstBlank(b, 0);
    if i == -1 then b else Residue(b[i + 2..])
  }

  lemma {:induction false} FramesFrame(b: Bytes)
    ensures IsFraming(Frames(b), Residue(b), b)
    decreases |b|
  {
    var i := FirstBlank(b, 0);
    if i != -1 {
      var e, tail := b[..i + 2], b[i + 2..];
      FramesFrame(tail);
      EventThenFraming(e, Frames(tail), Residue(tail), tail);
      assert b == e + tail;
    }
  }

  lemma {:induction false} EventThenFraming(e: Bytes, events: seq<Bytes>, rest: Bytes, tail: Bytes)
    requires IsEvent(e) && IsFraming(events, rest, tail)
    ensures IsFraming([e] + events, rest, e + tail)
  {
    assert ([e] + events)[1..] == events;
    Assoc(e, Flatten(events), rest);
  }

  /** There is only one way to frame a byte string, so how it arrived cannot matter. */
  lemma {:induction false} FramingUnique(e1: seq<Bytes>, r1: Bytes, e2: seq<Bytes>, r2: Bytes, b: Bytes)
    requires IsFraming(e1, r1, b) && IsFraming(e2, r2, b)
    ensures e1 == e2 && r1 == r2
    decreases |e1|
  {
    assert e1 == [] ==> r1 == b;
    assert e2 == [] ==> r2 == b;
    if e1 == [] || e2 == [] {
      if e1 != [] { RestHasNoEvent(e1, r1, b); }
      if e2 != [] { RestHasNoEvent(e2, r2, b); }
    } else {
      var x, y := e1[0], e2[0];
      assert b == x + (Flatten(e1[1..]) + r1) == y + (Flatten(e2[1..]) + r2);
      SameFirstEvent(x, y, b);
      assert b[|x|..] == Flatten(e1[1..]) + r1 == Flatten(e2[1..]) + r2;
      FramingUnique(e1[1..], r1, e2[1..], r2, b[|x|..]);
      assert e1 == [x] + e1[1..] && e2 == [y] + e2[1..];
    }
  }

  lemma RestHasNoEvent(events: seq<Bytes>, rest: Bytes, b: Bytes)
    requires IsFraming(events, rest, b) && events != []
    ensures !NoBlankLine(b)
  {
    var x := events[0];
    assert b == x + (Flatten(events[1..]) + rest);
    assert BlankAt(x, |x| - 2);
    assert BlankAt(b, |x| - 2);
  }

  lemma SameFirstEvent(x: Bytes, y: Bytes, b: Bytes)
    requires IsEvent(x) && IsEvent(y) && x <= b && y <= b
    ensures x == y
  {
    assert BlankAt(x, |x| - 2) && BlankAt(y, |y| - 2);
    if |x| < |y| {
      assert BlankAt(y, |x| - 2);
    } else if |y| < |x| {
      assert BlankAt(x, |y| - 2);
    }
  }

  /** `bytes.split(b"\n")`. */
  function Lines(b: Bytes): (lines: seq<Bytes>)
    ensures |lines| >= 1
  {
    if b == [] then [[]]
    else if b[0] == LF then [[]] + Lines(b[1..])
    else var tail := Lines(b[1..]); [[b[0]] + tail[0]] + tail[1..]
  }

  /** Lines loses nothing: putting the LF back between the pieces gives the bytes again. */
  lemma {:induction false} LinesRejoin(b: Bytes)
    ensures Unlines(Lines(b)) == b
  {
    if b != [] {
      LinesRejoin(b[1..]);
      var tail := Lines(b[1..]);
      assert b == [b[0]] + b[1..];
      if b[0] == LF {
        UnlinesCons([], tail);
      } else {
        UnlinesHead(b[0], tail);
      }
    }
  }

  lemma UnlinesCons(line: Bytes, tail: seq<Bytes>)
    requires tail != []
    ensures Unlines([line] + tail) == line + [LF] + Unlines(tail)
  {
    assert ([line] + tail)[1..] == tail;
  }

  lemma UnlinesHead(c: Byte, tail: seq<Bytes>)
    requires tail != []
    ensures Unlines([[c] + tail[0]] + tail[1..]) == [c] + Unlines(tail)
  {
    var grown := [[c] + tail[0]] + tail[1..];
    assert grown[1..] == tail[1..];
    if |tail| > 1 {
      assert [c] + tail[0] + [LF] + Unlines(tail[1..]) == [c] + (tail[0] + [LF] + Unlines(tail[1..]));
    }
  }

  function Unlines(lines: seq<Bytes>): (b: Bytes)
  {
    if lines == [] then []
    else if |lines| == 1 then lines[0]
    else lines[0] + [LF] + Unlines(lines[1..])
  }

  /** Splitting into lines commutes with cutting right after a line feed. */
  lemma {:induction false} LinesAfterLf(a: Bytes, b: Bytes)
    ensures Lines(a + [LF] + b) == Lines(a) + Lines(b)
  {
    var s := a + [LF] + b;
    if a == [] {
      assert s[1..] == b;
    } else {
      LinesAfterLf(a[1..], b);
      assert s[0] == a[0] && s[1..] == a[1..] + [LF] + b;
      LinesHead(a[0], Lines(a[1..]), Lines(b));
    }
  }

  lemma LinesHead(c: Byte, xs: seq<Bytes>, ys: seq<Bytes>)
    requires xs != []
    ensures [[]] + (xs + ys) == ([[]] + xs) + ys
    ensures [[c] + (xs + ys)[0]] + (xs + ys)[1..] == ([[c] + xs[0]] + xs[1..]) + ys
  {
  }
}
