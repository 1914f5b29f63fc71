/** The append-only JSONL writer: short writes, read-back, and sequence numbers over reopenings. */
module EventLog {
  import opened Common
  import opened SseFraming
  import StreamEvents

  datatype Event = Event(fields: map<string, string>)

  /** An event as written: stamped with its number and its writer. */
  datatype Stamped = Stamped(number: nat, writer: string, event: Event)

  /** JSON as the writer and the reader use it. `dumps` fails on an event that cannot be encoded. */
  datatype Codec = Codec(encodable: Event -> bool, dumps: Stamped -> Option<Bytes>, loads: Bytes -> Option<Stamped>)

  /** JSON text of an object: one line, braces at both ends, and it reads back. */
  ghost predicate Sound(c: Codec) {
    forall r ::
      && (c.dumps(r).Some? <==> c.encodable(r.event))
      && (c.dumps(r).Some? ==> GoodLine(c.dumps(r).value) && c.loads(c.dumps(r).value) == Some(r))
  }

  predicate GoodLine(b: Bytes) {
    |b| >= 2 && b[0] == 123 && b[|b| - 1] == 125 && LF !in b && CR !in b
  }

  // ---- reading -----------------------------------------------------------

  predicate IsBreak(c: Byte) {
    c == LF || c == CR
  }

  /** Text-mode line iteration: breaks at LF, CR and CR LF (whose empty piece is skipped later). */
  function Pieces(b: Bytes): (r: seq<Bytes>)
    ensures |r| >= 1
  {
    if b == [] then [[]]
    else if IsBreak(b[0]) then [[]] + Pieces(b[1..])
    else var tail := Pieces(b[1..]); [[b[0]] + tail[0]] + tail[1..]
  }

  function ReadPieces(c: Codec, ps: seq<Bytes>): (r: Option<seq<Stamped>>) {
    if ps == [] then Some([])
    else
      var line := StreamEvents.TrimRight(StreamEvents.TrimLeft(ps[0]));
      if line == [] then ReadPieces(c, ps[1..])
      else match (c.loads(line), ReadPieces(c, ps[1..]))
        case (Some(r), Some(rs)) => Some([r] + rs)
        case _ => None
  }

  /** `list(read_events(path))`; None when some line does not parse. */
  function ReadEvents(c: Codec, data: Bytes): (r: Option<seq<Stamped>>) {
    ReadPieces(c, Pieces(data))
  }

  /** The bytes of a log that holds exactly these records. */
  function Image(c: Codec, records: seq<Stamped>): (r: Bytes) {
    if records == [] then []
    else Image(c, records[..|records| - 1]) + LineOf(c, records[|records| - 1])
  }

  function LineOf(c: Codec, r: Stamped): (b: Bytes) {
    match c.dumps(r) case None => [] case Some(b) => b + [LF]
  }

  ghost predicate Encodable(c: Codec, records: seq<Stamped>) {
    forall i | 0 <= i < |records| :: c.dumps(records[i]).Some?
  }

  lemma {:induction false} PiecesAfterBreak(line: Bytes, rest: Bytes)
    requires LF !in line && CR !in line
    ensures Pieces(line + [LF] + rest) == [line] + Pieces(rest)
  {
    var s := line + [LF] + rest;
    if line == [] {
      assert s[1..] == rest;
    } else {
      assert !IsBreak(line[0]) by { assert line[0] in line; }
      assert s[0] == line[0] && s[1..] == line[1..] + [LF] + rest;
      PiecesAfterBreak(line[1..], rest);
      var tail := [line[1..]] + Pieces(rest);
      assert [line[0]] + line[1..] == line;
      assert tail[0] == line[1..] && tail[1..] == Pieces(rest);
    }
  }

  /** Reading back a log gives the records appended to it, in order. */
  lemma {:induction false} ReadBack(c: Codec, records: seq<Stamped>)
    requires Sound(c) && Encodable(c, records)
    ensures ReadEvents(c, Image(c, records)) == Some(records)
  {
    ReadBackWith(c, records, []);
    assert Image(c, records) + [] == Image(c, records);
    assert ReadPieces(c, Pieces([])) == Some([]);
    assert records + [] == records;
  }

  lemma {:induction false} ReadBackWith(c: Codec, records: seq<Stamped>, rest: Bytes)
    requires Sound(c) && Encodable(c, records)
    ensures ReadEvents(c, Image(c, records) + rest) == match ReadEvents(c, rest)
                                                       case None => None
                                                       case Some(rs) => Some(records + rs)
    decreases |records|
  {
    if records == [] {
      assert Image(c, records) + rest == rest;
      match ReadEvents(c, rest)
      case None =>
      case Some(rs) => assert [] + rs == rs;
    } else {
      var init, r := records[..|records| - 1], records[|records| - 1];
      var line := c.dumps(r).value;
      assert Image(c, records) == Image(c, init) + LineOf(c, r);
      hide Image, Pieces, ReadPieces;
      Assoc(Image(c, init), LineOf(c, r), rest);
      ReadBackWith(c, init, LineOf(c, r) + rest);
      PiecesAfterBreak(line, rest);
      ReadFirst(c, line, Pieces(rest), r);
      match ReadEvents(c, rest)
      case None =>
      case Some(rs) =>
        Assoc(init, [r], rs);
        assert init + [r] == records;
    }
  }

  lemma ReadFirst(c: Codec, line: Bytes, ps: seq<Bytes>, r: Stamped)
    requires GoodLine(line) && c.loads(line) == Some(r)
    ensures ReadPieces(c, [line] + ps) == match ReadPieces(c, ps) case None => None case Some(rs) => Some([r] + rs)
  {
    assert StreamEvents.TrimLeft(line) == line;
    assert StreamEvents.TrimRight(line) == line;
    assert ([line] + ps)[1..] == ps;
  }

  // ---- the writer --------------------------------------------------------

  datatype LogError = Closed | Unencodable

  /** Abstract state of one log and its current writer. */
  datatype LogState = LogState(records: seq<Stamped>, number: nat, writer: string)

  datatype Op = Append(event: Event) | Reopen(writer: string)

  /** A reopened log continues the numbering of its last record if that is the writer's own. */
  function Resumed(records: seq<Stamped>, writer: string): (n: nat) {
    if records != [] && records[|records| - 1].writer == writer then records[|records| - 1].number else 0
  }

  function Apply(c: Codec, s: LogState, op: Op): (r: LogState) {
    match op
    case Reopen(writer) => LogState(s.records, Resumed(s.records, writer), writer)
    case Append(e) =>
      var stamped := Stamped(s.number + 1, s.writer, e);
      LogState(if c.encodable(e) then s.records + [stamped] else s.records, s.number + 1, s.writer)
  }

  class LogFile {
    var data: Bytes

    constructor ()
      ensures data == []
    {
      data := [];
    }

    /** `os.write` on an O_APPEND descriptor: some non-empty front part goes to the end of the file. */
    method Write(view: Bytes) returns (written: nat)
      requires view != []
      modifies this
      ensures 1 <= written <= |view| && data == old(data) + view[..written]
    {
      written :| 1 <= written <= |view|;
      data := data + view[..written];
    }

    /** The write loop: repeats on what is left until everything is at the end of the file. */
    method WriteAll(bytes: Bytes)
      modifies this
      ensures data == old(data) + bytes
    {
      var view := bytes;
      while view != []
        invariant data + view == old(data) + bytes
        decreases |view|
      {
        label before:
        var written := Write(view);
        Assoc(old@before(data), view[..written], view[written..]);
        assert view[..written] + view[written..] == view;
        view := view[written..];
      }
      assert data + [] == data;
    }
  }

  class Writer {
    const file: LogFile
    const codec: Codec
    const instance: string
    var number: nat
    var closed: bool
    ghost var state: LogState

    ghost predicate Valid()
      reads this, file
    {
      && Sound(codec)
      && Encodable(codec, state.records)
      && file.data == Image(codec, state.records)
      && state.number == number && state.writer == instance
    }

    /** Opens a log that holds exactly `records`. */
    constructor (file: LogFile, codec: Codec, instance: string, ghost records: seq<Stamped>)
      requires Sound(codec) && Encodable(codec, records) && file.data == Image(codec, records)
      ensures Valid() && !closed && this.file == file && this.codec == codec
      ensures forall n, w :: state == Apply(codec, LogState(records, n, w), Reopen(instance))
    {
      this.file, this.codec, this.instance := file, codec, instance;
      closed := false;
      ReadBack(codec, records);
      var start := 0;
      if file.data != [] {
        match ReadEvents(codec, file.data) {
          case None =>
          case Some(events) =>
            if events != [] && events[|events| - 1].writer == instance {
              start := events[|events| - 1].number;
            }
        }
      } else {
        ImageEmpty(codec, records);
      }
      number := start;
      state := LogState(records, Resumed(records, instance), instance);
    }

    /** Adds exactly one whole line, however short the writes; a failed encoding adds nothing but
        uses up a number. */
    method Append(event: Event) returns (r: Result<Stamped, LogError>)
      requires Valid()
      modifies this, file
      ensures Valid() && closed == old(closed)
      ensures old(closed) ==> r == Failure(Closed) && state == old(state) && file.data == old(file.data)
      ensures !old(closed) ==> state == Apply(codec, old(state), Op.Append(event))
      ensures !old(closed) && !codec.encodable(event) ==> r == Failure(Unencodable) && file.data == old(file.data)
      ensures !old(closed) && codec.encodable(event) ==>
                && r == Success(Stamped(old(number) + 1, instance, event))
                && codec.dumps(r.value).Some? && file.data == old(file.data) + codec.dumps(r.value).value + [10]
    {
      hide GoodLine, Image;
      if closed {
        return Failure(Closed);
      }
      number := number + 1;
      var record := Stamped(number, instance, event);
      state := Apply(codec, state, Op.Append(event));
      match codec.dumps(record) {
        case None =>
          r := Failure(Unencodable);
        case Some(line) =>
          file.WriteAll(line + [LF]);
          ImageSnoc(codec, old(state).records, record);
          Assoc(old(file.data), line, [LF]);
          assert LineOf(codec, record) == line + [LF];
          assert state.records == old(state).records + [record];
          r := Success(record);
      }
    }

    method Close()
      modifies this`closed
      ensures closed
    {
      closed := true;
    }
  }

  lemma ImageSnoc(c: Codec, records: seq<Stamped>, r: Stamped)
    ensures Image(c, records + [r]) == Image(c, records) + LineOf(c, r)
  {
    assert (records + [r])[..|records|] == records;
  }

  lemma ImageEmpty(c: Codec, records: seq<Stamped>)
    requires Encodable(c, records) && Image(c, records) == []
    ensures records == []
  {
  }

  // ---- histories of one instance -----------------------------------------

  function Run(c: Codec, ops: seq<Op>, writer: string): (s: LogState) {
    if ops == [] then LogState([], 0, writer)
    else Apply(c, Run(c, ops[..|ops| - 1], writer), ops[|ops| - 1])
  }

  predicate OneInstance(ops: seq<Op>, writer: string) {
    forall i | 0 <= i < |ops| && ops[i].Reopen? :: ops[i].writer == writer
  }

  predicate Fails(c: Codec, op: Op) {
    op.Append? && !c.encodable(op.event)
  }

  predicate Succeeds(c: Codec, op: Op) {
    op.Append? && c.encodable(op.event)
  }

  /** Append `i` fails and nothing reopens the log before `j`. */
  predicate Pending(c: Codec, ops: seq<Op>, i: nat, j: nat)
    requires j <= |ops|
  {
    i < j && Fails(c, ops[i]) && forall k | i < k < j :: !ops[k].Reopen?
  }

  /** Some failed append is followed, in the same opening, by a successful one. */
  ghost predicate LosesNumber(c: Codec, ops: seq<Op>) {
    exists i: nat, j: nat | j < |ops| :: Pending(c, ops, i, j) && Succeeds(c, ops[j])
  }

  ghost predicate Dirty(c: Codec, ops: seq<Op>) {
    exists i: nat :: Pending(c, ops, i, |ops|)
  }

  ghost predicate Contiguous(records: seq<Stamped>) {
    forall i | 0 <= i < |records| :: records[i].number == i + 1
  }

  lemma PendingPrefix(c: Codec, ops: seq<Op>, op: Op, i: nat, j: nat)
    requires j <= |ops|
    ensures Pending(c, ops + [op], i, j) <==> Pending(c, ops, i, j)
  {
    var more := ops + [op];
    assert forall k | 0 <= k < |ops| :: more[k] == ops[k];
  }

  lemma LossSnoc(c: Codec, ops: seq<Op>, op: Op)
    ensures LosesNumber(c, ops + [op]) <==> LosesNumber(c, ops) || (Dirty(c, ops) && Succeeds(c, op))
  {
    var more := ops + [op];
    if LosesNumber(c, ops) {
      var i: nat, j: nat :| j < |ops| && Pending(c, ops, i, j) && Succeeds(c, ops[j]);
      PendingPrefix(c, ops, op, i, j);
      assert more[j] == ops[j];
    }
    if Dirty(c, ops) && Succeeds(c, op) {
      var i: nat :| Pending(c, ops, i, |ops|);
      PendingPrefix(c, ops, op, i, |ops|);
      assert more[|ops|] == op;
    }
    if LosesNumber(c, more) {
      var i: nat, j: nat :| j < |more| && Pending(c, more, i, j) && Succeeds(c, more[j]);
      PendingPrefix(c, ops, op, i, j);
      assert j < |ops| ==> more[j] == ops[j];
    }
  }

  lemma DirtySnoc(c: Codec, ops: seq<Op>, op: Op)
    ensures Dirty(c, ops + [op]) <==> Fails(c, op) || (!op.Reopen? && Dirty(c, ops))
  {
    var more := ops + [op];
    assert more[|ops|] == op;
    if Fails(c, op) {
      assert Pending(c, more, |ops|, |more|);
    }
    if Dirty(c, ops) && !op.Reopen? {
      var i: nat :| Pending(c, ops, i, |ops|);
      PendingPrefix(c, ops, op, i, |ops|);
      assert Pending(c, more, i, |more|);
    }
    if Dirty(c, more) {
      var i: nat :| Pending(c, more, i, |more|);
      PendingPrefix(c, ops, op, i, |ops|);
      if i < |ops| {
        assert Pending(c, more, i, |ops|);
      }
    }
  }

  lemma {:induction false} NumbersInvariant(c: Codec, ops: seq<Op>, writer: string)
    requires OneInstance(ops, writer)
    ensures var s := Run(c, ops, writer);
            && s.writer == writer
            && (forall i | 0 <= i < |s.records| :: s.records[i].writer == writer && 1 <= s.records[i].number <= s.number)
            && (forall i, j | 0 <= i < j < |s.records| :: s.records[i].number < s.records[j].number)
            && (Contiguous(s.records) <==> !LosesNumber(c, ops))
            && (!LosesNumber(c, ops) ==> s.number >= |s.records| && (s.number > |s.records| <==> Dirty(c, ops)))
    decreases |ops|
  {
    if ops != [] {
      var before, op := ops[..|ops| - 1], ops[|ops| - 1];
      assert ops == before + [op];
      NumbersInvariant(c, before, writer);
      LossSnoc(c, before, op);
      DirtySnoc(c, before, op);
      hide LosesNumber, Dirty;
      var s, s' := Run(c, before, writer), Run(c, ops, writer);
      assert s' == Apply(c, s, op);
      NumbersStep(c, s, op, writer);
    }
  }

  lemma NumbersStep(c: Codec, s: LogState, op: Op, writer: string)
    requires s.writer == writer && (op.Reopen? ==> op.writer == writer)
    requires forall i | 0 <= i < |s.records| :: s.records[i].writer == writer && 1 <= s.records[i].number <= s.number
    requires forall i, j | 0 <= i < j < |s.records| :: s.records[i].number < s.records[j].number
    ensures var s' := Apply(c, s, op);
            && s'.writer == writer
            && (forall i | 0 <= i < |s'.records| :: s'.records[i].writer == writer && 1 <= s'.records[i].number <= s'.number)
            && (forall i, j | 0 <= i < j < |s'.records| :: s'.records[i].number < s'.records[j].number)
            && (Succeeds(c, op) ==> (Contiguous(s'.records) <==> Contiguous(s.records) && s.number == |s.records|)
                                    && |s'.records| == |s.records| + 1 && s'.number == s.number + 1)
            && (!Succeeds(c, op) ==> s'.records == s.records)
            && (Fails(c, op) ==> s'.number == s.number + 1)
            && (op.Reopen? && Contiguous(s.records) ==> s'.number == |s.records|)
  {
    var s' := Apply(c, s, op);
    if Succeeds(c, op) {
      if Contiguous(s'.records) {
        forall i | 0 <= i < |s.records| ensures s.records[i].number == i + 1 {
          assert s'.records[i] == s.records[i];
        }
        assert s'.records[|s.records|].number == |s.records| + 1;
      }
    }
  }

  /** Over any number of close and reopen cycles of one instance the numbers always increase; they are
      1, 2, 3, ... without gap exactly when no append that failed to encode is followed by a successful
      one before the log is next reopened. */
  lemma NumbersExactly(c: Codec, ops: seq<Op>, writer: string)
    requires OneInstance(ops, writer)
    ensures var rs := Run(c, ops, writer).records;
            && (forall i, j | 0 <= i < j < |rs| :: rs[i].number < rs[j].number)
            && ((forall i | 0 <= i < |rs| :: rs[i].number == i + 1) <==> !LosesNumber(c, ops))
  {
    NumbersInvariant(c, ops, writer);
  }

  /** The shortest gap: a first append that fails to encode, and a second that does not. */
  lemma FailedAppendLeavesGap(c: Codec, bad: Event, good: Event, writer: string)
    requires !c.encodable(bad) && c.encodable(good)
    ensures Run(c, [Append(bad)] + [Append(good)], writer).records == [Stamped(2, writer, good)]
  {
    var first, second := Op.Append(bad), Op.Append(good);
    assert ([first] + [second])[..1] == [first] && [first][..0] == [];
    assert Run(c, [first], writer) == Apply(c, Run(c, [], writer), first);
    assert Run(c, [first] + [second], writer) == Apply(c, Run(c, [first], writer), second);
  }

  /** Whoever else opens the log begins again at 1. */
  lemma OtherWriterRestarts(c: Codec, ops: seq<Op>, writer: string, other: string, e: Event)
    requires OneInstance(ops, writer) && other != writer && c.encodable(e)
    ensures var before, after := Run(c, ops, writer).records, Run(c, ops + [Reopen(other)] + [Append(e)], writer).records;
            after == before + [Stamped(1, other, e)]
  {
    NumbersInvariant(c, ops, writer);
    var more := ops + [Reopen(other)];
    assert more[..|ops|] == ops && (more + [Append(e)])[..|more|] == more;
    var s := Run(c, ops, writer);
    assert Run(c, more, writer) == Apply(c, s, Reopen(other));
    assert Run(c, more + [Append(e)], writer) == Apply(c, Run(c, more, writer), Append(e));
  }

  /** The file only ever extends, whoever reopens it. */
  lemma {:induction false} FileOnlyExtends(c: Codec, ops: seq<Op>, k: nat, writer: string)
    requires k <= |ops|
    ensures Image(c, Run(c, ops[..k], writer).records) <= Image(c, Run(c, ops, writer).records)
    decreases |ops|
  {
    if k == |ops| {
      assert ops[..k] == ops;
    } else {
      var before, op := ops[..|ops| - 1], ops[|ops| - 1];
      assert before[..k] == ops[..k];
      FileOnlyExtends(c, before, k, writer);
      var s := Run(c, before, writer);
      if Succeeds(c, op) {
        ImageSnoc(c, s.records, Stamped(s.number + 1, s.writer, op.event));
      }
    }
  }
}
