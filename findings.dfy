/** Two consequences of the error paths of `read_once`, as written, for a
    caller that goes on reading after an `InvalidData` error, and a corrected
    machine that keeps the reader consistent on every outcome. */
module Findings {
  import opened Io
  import opened Utf8
  import opened Lines
  import opened Machine
  import opened Properties

  // ---------------------------------------------------------------------
  // As written

  /** A last fragment that is not UTF-8: the failed flush has taken `buf`
      but left `used` at 1, so the next call grows an empty buffer with zeros
      and queues a one-byte line holding NUL, a byte the stream never sent. */
  lemma {:induction false} PhantomNulLine()
    ensures var script: Script := [Data([0xFF])];
            var (s1, r1) := ReadOnce(Initial(script));
            var (s2, r2) := ReadOnce(s1);
            var (s3, r3) := ReadOnce(s2);
            && Delivered(script) == [0xFF]
            && r1 == Ok(true) && s1.lines == []
            && r2 == Err(InvalidData) && s2.buf == [] && s2.used == 1 && !Consistent(s2)
            && r3 == Ok(true) && s3.lines == [[0]] && 0 !in Delivered(script)
  {
    var b: seq<byte> := [0xFF];
    var s0 := Initial([Data(b)]);
    assert Live(s0) + NextRead(s0).0.bytes == b;
    assert FirstNewline(b) == None;
    DataRead(s0);
    var s1 := ReadOnce(s0).0;
    assert CharWidth(b) == 0;
    EndOfStream(s1);
    var s2 := ReadOnce(s1).0;
    var g := Reserve(s2);
    assert g.buf[..1] == [0];
    AsciiValid([0]);
  }

  /** A bad line followed, in the same read, by a good one: the scan stops at
      the bad line and the good one stays live with its '\n'.  The next read
      scans only the new bytes, so the two lines that follow come out as one
      line with two '\n'. */
  lemma {:induction false} MissedNewline()
    ensures var script: Script := [Data([0xFF, LF, 0x61, LF]), Data([0x62, LF])];
            var (s1, r1) := ReadOnce(Initial(script));
            var (s2, r2) := ReadOnce(s1);
            && r1 == Err(InvalidData) && s1.lines == [] && Live(s1) == [0x61, LF] && !Consistent(s1)
            && r2 == Ok(true) && s2.lines == [[0x61, LF, 0x62, LF]] && !IsLine(s2.lines[0])
  {
    MissedNewlineFirstRead();
    var s1 := ReadOnce(Initial([Data([0xFF, LF, 0x61, LF]), Data([0x62, LF])])).0;
    MissedNewlineSecondRead(s1);
    assert [0x61, LF, 0x62, LF][..3] == [0x61, LF, 0x62];
  }

  /** The first read of `MissedNewline`: the error, and `a\n` left live. */
  lemma {:induction false} MissedNewlineFirstRead()
    ensures var (s1, r1) := ReadOnce(Initial([Data([0xFF, LF, 0x61, LF]), Data([0x62, LF])]));
            && r1 == Err(InvalidData) && s1.lines == [] && Live(s1) == [0x61, LF] && !Consistent(s1)
            && s1.used <= |s1.buf| && !s1.atEof && s1.reader == [Data([0x62, LF])]
  {
    var b: seq<byte> := [0xFF, LF, 0x61, LF];
    var s0 := Initial([Data(b), Data([0x62, LF])]);
    assert Live(s0) + NextRead(s0).0.bytes == b;
    BadThenGood();
    DataRead(s0);
    assert [Data(b), Data([0x62, LF])][1..] == [Data([0x62, LF])];
  }

  /** The second read of `MissedNewline`: the scan starts after `a\n`. */
  lemma {:induction false} MissedNewlineSecondRead(s1: Splitter)
    requires s1.used <= |s1.buf| && !s1.atEof && s1.reader == [Data([0x62, LF])]
    requires s1.lines == [] && Live(s1) == [0x61, LF]
    ensures ReadOnce(s1).1 == Ok(true) && ReadOnce(s1).0.lines == [[0x61, LF, 0x62, LF]]
  {
    RoomBeforeRead(s1);
    var h := Reserve(s1).(reader := NextRead(s1).1);
    assert NextRead(s1).0 == Data([0x62, LF]);
    var f := Fill(h, [0x62, LF]);
    assert Live(f) == [0x61, LF, 0x62, LF];
    assert f.buf[2..4] == [0x62, LF];
    EvalBufFinds(f, 2, 1);
    assert f.buf[..4] == [0x61, LF, 0x62, LF];
    AsciiValid([0x61, LF, 0x62, LF]);
    SplitAtValid(f, 4);
  }

  /** The complete lines of the first read of `MissedNewline`. */
  lemma {:induction false} BadThenGood()
    ensures CompleteLines([0xFF, LF, 0x61, LF]) == [[0xFF, LF], [0x61, LF]]
    ensures Remainder([0xFF, LF, 0x61, LF]) == []
    ensures !Utf8.Valid([0xFF, LF]) && LeadingValid(CompleteLines([0xFF, LF, 0x61, LF])) == 0
  {
    var b: seq<byte> := [0xFF, LF, 0x61, LF];
    CompleteLinesAt(b, 1);
    assert b[..2] == [0xFF, LF] && b[2..] == [0x61, LF];
    var b2: seq<byte> := [0x61, LF];
    CompleteLinesAt(b2, 1);
    assert b2[..2] == b2 && b2[2..] == [];
    NothingLeft();
    assert CharWidth([0xFF, LF]) == 0;
  }

  // ---------------------------------------------------------------------
  // Corrected

  /** `eval_buf` as intended: a line that is not UTF-8 is dropped and
      reported, and the scan still goes on to the end of the live bytes. */
  function EvalBufCorrected(s: Splitter, pos: nat): (res: (Splitter, Result<()>))
    requires pos <= s.used <= |s.buf|
    ensures res.0 == s.(buf := res.0.buf, used := res.0.used, lines := res.0.lines)
    ensures res.0.used <= |res.0.buf| && res.0.used <= s.used
    decreases s.used, 1
  {
    match FirstNewline(s.buf[pos..s.used])
    case None => (s, Ok(()))
    case Some(i) => SplitAtCorrected(s, pos + i + 1)
  }

  /** One turn of the corrected loop, for a '\n' just before `at`. */
  function SplitAtCorrected(s: Splitter, at: nat): (res: (Splitter, Result<()>))
    requires 0 < at <= s.used <= |s.buf|
    ensures res.0 == s.(buf := res.0.buf, used := res.0.used, lines := res.0.lines)
    ensures res.0.used <= |res.0.buf| && res.0.used < s.used
    decreases s.used, 0
  {
    var t := s.(buf := s.buf[at..], used := s.used - at);
    match U8ArrayToString(s.buf[..at])
    case Err(e) => (EvalBufCorrected(t, 0).0, Err(e))
    case Ok(text) => EvalBufCorrected(t.(lines := t.lines + [text]), 0)
  }

  /** End of stream as intended: a last fragment that is not UTF-8 is
      dropped with the buffer, so `used` is 0 again. */
  function FlushCorrected(h: Splitter): (res: (Splitter, Result<bool>))
    requires h.used <= |h.buf|
  {
    if h.used > 0 then
      var taken := h.(buf := [], used := 0);
      match U8ArrayToString(h.buf[..h.used])
      case Err(e) => (taken, Err(e))
      case Ok(text) => (taken.(lines := taken.lines + [text], atEof := true), Ok(true))
    else (h.(atEof := true), Ok(true))
  }

  function AnswerCorrected(h: Splitter, reply: ReadOutcome): (res: (Splitter, Result<bool>))
    requires h.used + (if reply.Data? then |reply.bytes| else 0) <= |h.buf|
  {
    match reply
    case Zero => FlushCorrected(h)
    case WouldBlock => (h, Ok(true))
    case Interrupted => (h, Ok(true))
    case Data(bytes) =>
      var (t, r) := EvalBufCorrected(Fill(h, bytes), h.used);
      (t, if r.Err? then Err(r.error) else Ok(true))
    case OtherErr(e) => (h, Err(e))
  }

  /** `read_once` with both error paths corrected. */
  function ReadOnceCorrected(s: Splitter): (res: (Splitter, Result<bool>))
    requires s.used <= |s.buf|
  {
    if s.atEof then (s, Ok(false))
    else
      var g := Reserve(s);
      var (reply, rest) := Read(g.reader, |g.buf| - g.used);
      AnswerCorrected(g.(reader := rest), reply)
  }

  /** The corrected scan leaves no '\n' among the live bytes, whatever the
      lines it meets. */
  lemma {:induction false} CorrectedScanClears(s: Splitter, pos: nat)
    requires pos <= s.used <= |s.buf| && LF !in s.buf[..pos]
    ensures Consistent(EvalBufCorrected(s, pos).0)
    decreases s.used
  {
    match FirstNewline(s.buf[pos..s.used])
    case None =>
      assert EvalBufCorrected(s, pos).0 == s;
      NoNewlineLeft(s, pos);
    case Some(i) =>
      var at := pos + i + 1;
      CorrectedFinds(s, pos, i);
      var t := s.(buf := s.buf[at..], used := s.used - at);
      if Utf8.Valid(s.buf[..at]) {
        var u := t.(lines := t.lines + [s.buf[..at]]);
        CorrectedTurn(s, at);
        CorrectedScanClears(u, 0);
      } else {
        CorrectedTurn(s, at);
        CorrectedScanClears(t, 0);
      }
  }

  /** One corrected turn: a well-formed line is queued and the scan goes on
      from 0 after it; a malformed one is dropped and the scan goes on all the
      same. */
  lemma CorrectedTurn(s: Splitter, at: nat)
    requires 0 < at <= s.used <= |s.buf|
    ensures var t := s.(buf := s.buf[at..], used := s.used - at);
            && (Utf8.Valid(s.buf[..at]) ==>
                  SplitAtCorrected(s, at) == EvalBufCorrected(t.(lines := t.lines + [s.buf[..at]]), 0))
            && (!Utf8.Valid(s.buf[..at]) ==>
                  SplitAtCorrected(s, at) == (EvalBufCorrected(t, 0).0, Err(InvalidData)))
  {
  }

  /** No '\n' before `pos` and none in `buf[pos..used]`: none is live. */
  lemma NoNewlineLeft(s: Splitter, pos: nat)
    requires pos <= s.used <= |s.buf| && LF !in s.buf[..pos]
    requires FirstNewline(s.buf[pos..s.used]).None?
    ensures Consistent(s)
  {
    assert s.buf[..s.used] == s.buf[..pos] + s.buf[pos..s.used];
    FirstNewlineSpec(s.buf[pos..s.used]);
  }

  /** Wherever the as-written scan succeeds, the corrected one does the same. */
  lemma {:induction false} ScanAgrees(s: Splitter, pos: nat)
    requires pos <= s.used <= |s.buf| && EvalBuf(s, pos).1.Ok?
    ensures EvalBufCorrected(s, pos) == EvalBuf(s, pos)
    decreases s.used
  {
    match FirstNewline(s.buf[pos..s.used])
    case None =>
      EvalBufStops(s, pos);
    case Some(i) =>
      var at := pos + i + 1;
      EvalBufFinds(s, pos, i);
      CorrectedFinds(s, pos, i);
      SplitAtOkValid(s, at);
      SplitAtValid(s, at);
      var u := s.(buf := s.buf[at..], used := s.used - at, lines := s.lines + [s.buf[..at]]);
      assert SplitAtCorrected(s, at) == EvalBufCorrected(u, 0);
      ScanAgrees(u, 0);
  }

  /** The corrected `read_once` leaves a consistent reader on EVERY outcome,
      errors included; the as-written one does not (`PhantomNulLine`,
      `MissedNewline`). */
  lemma {:induction false} CorrectedKeepsConsistent(s: Splitter)
    requires Consistent(s)
    ensures Consistent(ReadOnceCorrected(s).0)
  {
    if !s.atEof {
      RoomBeforeRead(s);
      var h := Reserve(s).(reader := NextRead(s).1);
      assert ReadOnceCorrected(s) == AnswerCorrected(h, NextRead(s).0);
      AnswerKeepsConsistent(h, NextRead(s).0);
    }
  }

  /** Every answer of the read leaves the corrected reader consistent. */
  lemma {:induction false} AnswerKeepsConsistent(h: Splitter, reply: ReadOutcome)
    requires Consistent(h) && h.used + (if reply.Data? then |reply.bytes| else 0) <= |h.buf|
    ensures Consistent(AnswerCorrected(h, reply).0)
  {
    if reply.Data? {
      var f := Fill(h, reply.bytes);
      assert f.buf[..h.used] == Live(f)[..h.used] == Live(h);
      CorrectedScanClears(f, h.used);
    }
  }

  /** Where `read_once` as written succeeds, the corrected one does exactly
      the same: the correction touches only the error paths. */
  lemma {:induction false} CorrectedAgrees(s: Splitter)
    requires s.used <= |s.buf| && ReadOnce(s).1.Ok?
    ensures ReadOnceCorrected(s) == ReadOnce(s)
  {
    if !s.atEof {
      RoomBeforeRead(s);
      var g := Reserve(s);
      var (reply, rest) := Read(g.reader, |g.buf| - g.used);
      var h := g.(reader := rest);
      if reply.Data? {
        ScanAgrees(Fill(h, reply.bytes), h.used);
      }
    }
  }

  /** The corrected scan, too, stops at the first '\n' of `buf[pos..used]`. */
  lemma {:induction false} CorrectedFinds(s: Splitter, pos: nat, i: nat)
    requires pos <= s.used <= |s.buf|
    requires FirstNewline(s.buf[pos..s.used]) == Some(i)
    ensures EvalBufCorrected(s, pos) == SplitAtCorrected(s, pos + i + 1)
  {
  }

  /** The stream of `PhantomNulLine`, read by the corrected machine: the bad
      fragment is reported and dropped, and end of stream then queues
      nothing. */
  lemma {:induction false} PhantomNulLineFixed()
    ensures var s0 := Initial([Data([0xFF])]);
            var (s1, r1) := ReadOnceCorrected(s0);
            s1.used <= |s1.buf| &&
            var (s2, r2) := ReadOnceCorrected(s1);
            s2.used <= |s2.buf| &&
            var (s3, r3) := ReadOnceCorrected(s2);
            && r1 == Ok(true) && r2 == Err(InvalidData) && Consistent(s2)
            && r3 == Ok(true) && s3.lines == [] && s3.atEof
  {
    var b: seq<byte> := [0xFF];
    var s0 := Initial([Data(b)]);
    assert Live(s0) + NextRead(s0).0.bytes == b;
    assert FirstNewline(b) == None;
    DataRead(s0);
    CorrectedAgrees(s0);
    var s1 := ReadOnce(s0).0;
    assert CharWidth(b) == 0;
    RoomBeforeRead(s1);
    assert NextRead(s1).0 == Zero;
    var s2 := ReadOnceCorrected(s1).0;
    assert s2.used == 0 && s2.lines == [] && !s2.atEof && s2.reader == [];
  }

  /** The stream of `MissedNewline`, read by the corrected machine: the bad
      line is reported and dropped, and the two good lines come out as two
      lines. */
  lemma {:induction false} MissedNewlineFixed()
    ensures var s0 := Initial([Data([0xFF, LF, 0x61, LF]), Data([0x62, LF])]);
            var (s1, r1) := ReadOnceCorrected(s0);
            s1.used <= |s1.buf| &&
            var (s2, r2) := ReadOnceCorrected(s1);
            && r1 == Err(InvalidData) && s1.lines == [[0x61, LF]] && Consistent(s1)
            && r2 == Ok(true) && s2.lines == [[0x61, LF], [0x62, LF]]
  {
    var s0 := Initial([Data([0xFF, LF, 0x61, LF]), Data([0x62, LF])]);
    MissedNewlineFixedFirstRead(s0);
    var s1 := ReadOnceCorrected(s0).0;
    assert [Data([0xFF, LF, 0x61, LF]), Data([0x62, LF])][1..] == [Data([0x62, LF])];
    assert NextRead(s1).0 == Data([0x62, LF]);
    var b: seq<byte> := [0x62, LF];
    assert Live(s1) + NextRead(s1).0.bytes == b;
    CompleteLinesAt(b, 1);
    assert b[..2] == b && b[2..] == [];
    NothingLeft();
    AsciiValid(b);
    DataReadOk(s1);
    CorrectedAgrees(s1);
  }

  /** The first read of `MissedNewline`, by the corrected machine. */
  lemma {:induction false} MissedNewlineFixedFirstRead(s0: Splitter)
    requires s0 == Initial([Data([0xFF, LF, 0x61, LF]), Data([0x62, LF])])
    ensures var (s1, r1) := ReadOnceCorrected(s0);
            && r1 == Err(InvalidData) && s1.lines == [[0x61, LF]] && Consistent(s1) && Live(s1) == []
            && !s1.atEof && s1.reader == [Data([0x62, LF])]
  {
    RoomBeforeRead(s0);
    var h := Reserve(s0).(reader := NextRead(s0).1);
    assert NextRead(s0).0 == Data([0xFF, LF, 0x61, LF]);
    var f := Fill(h, [0xFF, LF, 0x61, LF]);
    BadThenGoodCorrected(f);
  }

  /** The corrected scan of `\xFF\n` `a\n`: the first line is dropped, the
      second queued, and the error reported. */
  lemma {:induction false} BadThenGoodCorrected(f: Splitter)
    requires f.used <= |f.buf| && Live(f) == [0xFF, LF, 0x61, LF] && f.lines == []
    ensures var (t, r) := EvalBufCorrected(f, 0);
            r == Err(InvalidData) && t.lines == [[0x61, LF]] && Consistent(t) && Live(t) == []
  {
    assert f.buf[0..4] == Live(f);
    FirstNewlineAt(f.buf[0..4], 1);
    CorrectedFinds(f, 0, 1);
    assert f.buf[..2] == [0xFF, LF];
    assert CharWidth([0xFF, LF]) == 0;
    var t := f.(buf := f.buf[2..], used := 2);
    GoodLineCorrected(t);
  }

  /** The corrected scan of a live `a\n`: queued, and nothing left live. */
  lemma {:induction false} GoodLineCorrected(t: Splitter)
    requires t.used <= |t.buf| && Live(t) == [0x61, LF] && t.lines == []
    ensures var (u, r) := EvalBufCorrected(t, 0);
            r == Ok(()) && u.lines == [[0x61, LF]] && Consistent(u) && Live(u) == []
  {
    assert t.buf[0..2] == [0x61, LF];
    FirstNewlineAt(t.buf[0..2], 1);
    CorrectedFinds(t, 0, 1);
    assert t.buf[..2] == [0x61, LF];
    AsciiValid([0x61, LF]);
    var u := t.(buf := t.buf[2..], used := 0, lines := [[0x61, LF]]);
    assert u.buf[0..0] == [];
    assert EvalBufCorrected(u, 0) == (u, Ok(()));
  }
}
