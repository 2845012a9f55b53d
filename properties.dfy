/** What one `read_once`, and a whole `read_available`, do to a reader. */
module Properties {
  import opened Io
  import opened Utf8
  import opened Lines
  import opened Machine

  /** The free space the read is offered after the buffer has grown. */
  function Room(s: Splitter): nat {
    |Reserve(s).buf| - s.used
  }

  /** The read `read_once` makes when it is not at end of stream. */
  function NextRead(s: Splitter): (ReadOutcome, Script) {
    Read(s.reader, Room(s))
  }

  /** Away from end of stream, `read_once` grows the buffer, reads, and acts
      on the answer. */
  lemma {:induction false} ReadOnceReads(s: Splitter)
    requires !s.atEof
    ensures Room(s) > 0
    ensures ReadOnce(s) == Answer(Reserve(s).(reader := NextRead(s).1), NextRead(s).0)
  {
  }

  // ---------------------------------------------------------------------
  // The scan of `eval_buf`

  /** The scan of `eval_buf` stops at the first '\n' of `buf[pos..used]`. */
  lemma {:induction false} EvalBufFinds(s: Splitter, pos: nat, i: nat)
    requires pos <= s.used <= |s.buf|
    requires FirstNewline(s.buf[pos..s.used]) == Some(i)
    ensures pos + i < s.used && s.buf[pos + i] == LF
    ensures EvalBuf(s, pos) == SplitAt(s, pos + i + 1)
  {
    var r := s.buf[pos..s.used];
    assert r[i] == s.buf[pos + i];
  }

  /** With no '\n' in `buf[pos..used]`, the scan changes nothing. */
  lemma {:induction false} EvalBufStops(s: Splitter, pos: nat)
    requires pos <= s.used <= |s.buf|
    requires FirstNewline(s.buf[pos..s.used]) == None
    ensures EvalBuf(s, pos) == (s, Ok(()))
  {
  }

  /** Starting the scan at `pos` misses no boundary when no '\n' lies before
      `pos`: it then does exactly what a scan from 0 does. */
  lemma {:induction false} ScanFromOldUsed(s: Splitter, pos: nat)
    requires pos <= s.used <= |s.buf| && LF !in s.buf[..pos]
    ensures EvalBuf(s, pos) == EvalBuf(s, 0)
  {
    var a, b, w := s.buf[..pos], s.buf[pos..s.used], s.buf[0..s.used];
    assert w == a + b;
    FirstNewlineAfter(w, a, b);
    if FirstNewline(b).None? {
      EvalBufStops(s, pos);
      EvalBufStops(s, 0);
    } else {
      var i := FirstNewline(b).value;
      EvalBufFinds(s, pos, i);
      EvalBufFinds(s, 0, pos + i);
    }
  }

  /** How many lines at the front of `ls` are well-formed UTF-8. */
  function LeadingValid(ls: seq<seq<byte>>): (k: nat)
    ensures k <= |ls|
  {
    if ls == [] || !Utf8.Valid(ls[0]) then 0 else 1 + LeadingValid(ls[1..])
  }

  /** The lines before index `LeadingValid(ls)` are well-formed, the one at it
      is not. */
  lemma {:induction false} LeadingValidMeans(ls: seq<seq<byte>>)
    ensures forall j | 0 <= j < LeadingValid(ls) :: Utf8.Valid(ls[j])
    ensures LeadingValid(ls) < |ls| ==> !Utf8.Valid(ls[LeadingValid(ls)])
  {
    if ls != [] && Utf8.Valid(ls[0]) {
      LeadingValidMeans(ls[1..]);
      forall j | 0 <= j < LeadingValid(ls) ensures Utf8.Valid(ls[j]) {
        if j > 0 { assert ls[j] == ls[1..][j - 1]; }
      }
    }
  }

  /** A well-formed head is queued and the scan goes on from 0 in the tail. */
  lemma {:induction false} SplitAtValid(s: Splitter, at: nat)
    requires 0 < at <= s.used <= |s.buf| && Utf8.Valid(s.buf[..at])
    ensures SplitAt(s, at) == EvalBuf(s.(buf := s.buf[at..], used := s.used - at, lines := s.lines + [s.buf[..at]]), 0)
  {
  }

  /** The scan of `eval_buf` from `pos` in `s` ends as `goal`: the loop
      invariant of the methods that run the scan on the fields. */
  predicate ScanEndsAs(s: Splitter, pos: nat, goal: (Splitter, Result<()>)) {
    pos <= s.used <= |s.buf| && EvalBuf(s, pos) == goal
  }

  /** With no '\n' left, the scan has ended. */
  lemma ScanEndsStop(s: Splitter, pos: nat, goal: (Splitter, Result<()>))
    requires ScanEndsAs(s, pos, goal) && FirstNewline(s.buf[pos..s.used]).None?
    ensures goal == (s, Ok(()))
  {
    EvalBufStops(s, pos);
  }

  /** With a '\n' left, the scan goes on by splitting just after it. */
  lemma ScanEndsTurn(s: Splitter, pos: nat, i: nat, goal: (Splitter, Result<()>))
    requires ScanEndsAs(s, pos, goal) && FirstNewline(s.buf[pos..s.used]) == Some(i)
    ensures pos + i < s.used && SplitAt(s, pos + i + 1) == goal
  {
    EvalBufFinds(s, pos, i);
  }

  /** A turn that succeeds has met a well-formed line. */
  lemma SplitAtOkValid(s: Splitter, at: nat)
    requires 0 < at <= s.used <= |s.buf|
    ensures SplitAt(s, at).1.Ok? ==> Utf8.Valid(s.buf[..at])
  {
  }

  /** A malformed head is dropped and the scan stops with `InvalidData`. */
  lemma {:induction false} SplitAtInvalid(s: Splitter, at: nat)
    requires 0 < at <= s.used <= |s.buf| && !Utf8.Valid(s.buf[..at])
    ensures SplitAt(s, at) == (s.(buf := s.buf[at..], used := s.used - at), Err(InvalidData))
  {
  }

  /** What a scan leaves when the lines it meets are `ls` and the bytes after
      the last of them are `rem`, for lines `lines0` queued before it: the
      lines of `ls` are queued, in order, up to the first one that is not
      UTF-8; that one is dropped and the lines after it stay live.  With no bad
      line, the live bytes end as `rem`. */
  predicate ScannedInto(lines0: seq<Text>, ls: seq<seq<byte>>, rem: seq<byte>, t: Splitter, r: Result<()>) {
    var k := LeadingValid(ls);
    && t.used <= |t.buf|
    && t.lines == lines0 + ls[..k]
    && (r.Ok? <==> k == |ls|)
    && (r.Ok? ==> Live(t) == rem)
    && (r.Err? ==> r.error == InvalidData && Live(t) == Concat(ls[k + 1..]) + rem)
  }

  /** A scan from 0 over the live bytes `x` meets the complete lines of `x`. */
  predicate Scanned(lines0: seq<Text>, x: seq<byte>, t: Splitter, r: Result<()>) {
    ScannedInto(lines0, CompleteLines(x), Remainder(x), t, r)
  }

  /** A well-formed line in front is queued before the rest. */
  lemma {:induction false} ScannedIntoCons(lines0: seq<Text>, line: seq<byte>, ls: seq<seq<byte>>, rem: seq<byte>, t: Splitter, r: Result<()>)
    requires Utf8.Valid(line) && ScannedInto(lines0 + [line], ls, rem, t, r)
    ensures ScannedInto(lines0, [line] + ls, rem, t, r)
  {
    var all := [line] + ls;
    assert all[1..] == ls;
    var k := LeadingValid(all);
    assert k == 1 + LeadingValid(ls);
    assert all[..k] == [line] + ls[..k - 1];
    assert k < |all| ==> ls[k - 1 + 1..] == all[k + 1..];
  }

  /** A well-formed first line, queued before the rest is scanned. */
  lemma {:induction false} ScannedAfterLine(lines0: seq<Text>, x: seq<byte>, i: nat, t: Splitter, r: Result<()>)
    requires FirstNewline(x) == Some(i) && Utf8.Valid(x[..i + 1])
    requires Scanned(lines0 + [x[..i + 1]], x[i + 1..], t, r)
    ensures Scanned(lines0, x, t, r)
  {
    assert CompleteLines(x) == [x[..i + 1]] + CompleteLines(x[i + 1..]);
    assert Remainder(x) == Remainder(x[i + 1..]);
    ScannedIntoCons(lines0, x[..i + 1], CompleteLines(x[i + 1..]), Remainder(x), t, r);
  }

  /** A malformed first line stops the scan at once. */
  lemma {:induction false} ScannedBadLine(lines0: seq<Text>, x: seq<byte>, i: nat, t: Splitter)
    requires FirstNewline(x) == Some(i) && !Utf8.Valid(x[..i + 1])
    requires t.used <= |t.buf| && t.lines == lines0 && Live(t) == x[i + 1..]
    ensures Scanned(lines0, x, t, Err(InvalidData))
  {
    var ls := CompleteLines(x);
    assert ls == [x[..i + 1]] + CompleteLines(x[i + 1..]);
    assert LeadingValid(ls) == 0;
    assert ls[1..] == CompleteLines(x[i + 1..]);
    assert Remainder(x) == Remainder(x[i + 1..]);
    CompleteLinesRoundTrip(x[i + 1..]);
  }

  /** The first complete line of the live bytes, when well-formed, is queued
      and the scan goes on from 0 in what follows it. */
  lemma {:induction false} ScanGoodLine(s: Splitter, i: nat)
    requires s.used <= |s.buf| && FirstNewline(s.buf[0..s.used]) == Some(i) && Utf8.Valid(s.buf[..i + 1])
    ensures EvalBuf(s, 0) == EvalBuf(s.(buf := s.buf[i + 1..], used := s.used - (i + 1), lines := s.lines + [s.buf[..i + 1]]), 0)
  {
    calc {
      EvalBuf(s, 0);
      { EvalBufFinds(s, 0, i); }
      SplitAt(s, i + 1);
      { SplitAtValid(s, i + 1); }
      EvalBuf(s.(buf := s.buf[i + 1..], used := s.used - (i + 1), lines := s.lines + [s.buf[..i + 1]]), 0);
    }
  }

  /** The first complete line of the live bytes, when malformed, ends the scan. */
  lemma {:induction false} ScanBadLine(s: Splitter, i: nat)
    requires s.used <= |s.buf| && FirstNewline(Live(s)) == Some(i) && !Utf8.Valid(Live(s)[..i + 1])
    ensures Scanned(s.lines, Live(s), EvalBuf(s, 0).0, EvalBuf(s, 0).1)
  {
    var x := Live(s);
    assert s.buf[0..s.used] == x;
    EvalBufFinds(s, 0, i);
    assert s.buf[..i + 1] == x[..i + 1];
    SplitAtInvalid(s, i + 1);
    var t := s.(buf := s.buf[i + 1..], used := s.used - (i + 1));
    assert t.buf[0..t.used] == s.buf[i + 1..s.used];
    assert Live(t) == x[i + 1..];
    ScannedBadLine(s.lines, x, i, t);
  }

  /** The scan from 0, in full. */
  lemma {:induction false} EvalBufFromStart(s: Splitter)
    requires s.used <= |s.buf|
    ensures Scanned(s.lines, Live(s), EvalBuf(s, 0).0, EvalBuf(s, 0).1)
    decreases s.used
  {
    var x := Live(s);
    match FirstNewline(x)
    case None =>
      assert s.buf[0..s.used] == x;
    case Some(i) =>
      if Utf8.Valid(x[..i + 1]) {
        assert s.buf[0..s.used] == x;
        assert s.buf[..i + 1] == x[..i + 1];
        ScanGoodLine(s, i);
        var u := s.(buf := s.buf[i + 1..], used := s.used - (i + 1), lines := s.lines + [x[..i + 1]]);
        assert Live(u) == x[i + 1..];
        EvalBufFromStart(u);
        ScannedAfterLine(s.lines, x, i, EvalBuf(u, 0).0, EvalBuf(u, 0).1);
      } else {
        ScanBadLine(s, i);
      }
  }

  // ---------------------------------------------------------------------
  // One `read_once`, by the answer of its read

  /** Before the read, at least BUFFER_SIZE bytes are free past `used`, and
      the live bytes are untouched. */
  lemma {:induction false} RoomBeforeRead(s: Splitter)
    requires s.used <= |s.buf|
    ensures Room(s) >= BUFFER_SIZE
    ensures Reserve(s).used <= |Reserve(s).buf| && Live(Reserve(s)) == Live(s)
  {
    assert Reserve(s).buf[..s.used] == Reserve(s).buf[..|s.buf|][..s.used];
  }

  /** At end of stream, `read_once` returns `Ok(false)` and changes nothing,
      and so does `read_available`. */
  lemma {:induction false} AtEofIsNoOp(s: Splitter)
    requires s.atEof
    ensures ReadOnce(s) == (s, Ok(false))
    ensures ReadAvailable(s) == (s, Ok(()))
  {
  }

  /** `Ok(false)` means exactly "already at end of stream on entry"; no call
      takes a reader back from end of stream or removes a queued line. */
  lemma {:induction false} ReadOnceResult(s: Splitter)
    ensures ReadOnce(s).1 == Ok(false) <==> s.atEof
    ensures s.atEof ==> ReadOnce(s).0.atEof
    ensures |s.lines| <= |ReadOnce(s).0.lines| && ReadOnce(s).0.lines[..|s.lines|] == s.lines
  {
    if !s.atEof {
      var g := Reserve(s);
      var (reply, rest) := Read(g.reader, |g.buf| - g.used);
      var h := g.(reader := rest);
      if reply.Zero? && h.used > 0 {
        assert h.lines + [h.buf] == h.lines + [h.buf];
      }
    }
  }

  /** A read that would block or was interrupted: `Ok(true)`, and `used`, the
      live bytes, the queued lines and `at_eof` are as they were; only the
      buffer may have grown. */
  lemma {:induction false} IdleRead(s: Splitter)
    requires !s.atEof && s.used <= |s.buf|
    requires NextRead(s).0 == WouldBlock || NextRead(s).0 == Interrupted
    ensures var (t, r) := ReadOnce(s);
            && r == Ok(true)
            && t == s.(buf := Reserve(s).buf, reader := NextRead(s).1)
            && t.used == s.used && Live(t) == Live(s) && t.lines == s.lines && !t.atEof
  {
    RoomBeforeRead(s);
  }

  /** Any other error of the read is returned unchanged, the state is kept
      as it was before the read. */
  lemma {:induction false} FailedRead(s: Splitter, e: IoError)
    requires !s.atEof && s.used <= |s.buf|
    requires NextRead(s).0 == OtherErr(e)
    ensures var (t, r) := ReadOnce(s);
            && r == Err(e)
            && t == s.(buf := Reserve(s).buf, reader := NextRead(s).1)
            && Live(t) == Live(s) && (Consistent(s) ==> Consistent(t))
  {
    RoomBeforeRead(s);
  }

  /** End of stream: with no live bytes nothing is queued; otherwise the live
      bytes, exactly as buffered and with no '\n' added, become one last line
      and `used` drops to 0.  Either way `at_eof` is set and the call returns
      `Ok(true)`.  A last line that is not UTF-8 gives `InvalidData`, with
      `buf` already taken but `used` and `at_eof` as they were. */
  lemma {:induction false} EndOfStream(s: Splitter)
    requires !s.atEof && s.used <= |s.buf|
    requires NextRead(s).0 == Zero
    ensures var (t, r) := ReadOnce(s);
            && t.reader == s.reader
            && (s.used == 0 ==> r == Ok(true) && t.atEof && t.lines == s.lines && t.used == 0)
            && (s.used > 0 && Utf8.Valid(Live(s)) ==>
                  r == Ok(true) && t.atEof && t.lines == s.lines + [Live(s)] && t.used == 0 && t.buf == [])
            && (s.used > 0 && !Utf8.Valid(Live(s)) ==>
                  r == Err(InvalidData) && !t.atEof && t.lines == s.lines && t.used == s.used && t.buf == [])
  {
    RoomBeforeRead(s);
  }

  /** What a scan leaves, read off: it succeeds exactly when every complete
      line of `x` is UTF-8, and then all of them are queued, each ending in its
      one '\n', and they give back `x` when the live bytes are put after them;
      otherwise the lines before the first bad one are queued, that one is
      gone, and the bytes after it stay live. */
  lemma {:induction false} ScannedMeans(lines0: seq<Text>, x: seq<byte>, t: Splitter, r: Result<()>)
    requires Scanned(lines0, x, t, r)
    ensures var ls := CompleteLines(x);
            var k := LeadingValid(ls);
            && t.used <= |t.buf|
            && (forall j | 0 <= j < |ls| :: IsLine(ls[j]))
            && (r.Ok? <==> forall j | 0 <= j < |ls| :: Utf8.Valid(ls[j]))
            && (r.Ok? ==>
                  && t.lines == lines0 + ls
                  && Live(t) == Remainder(x)
                  && Concat(ls) + Live(t) == x
                  && LF !in Live(t))
            && (r.Err? ==>
                  && r.error == InvalidData
                  && t.lines == lines0 + ls[..k]
                  && k < |ls| && !Utf8.Valid(ls[k])
                  && Live(t) == Concat(ls[k + 1..]) + Remainder(x))
  {
    var ls := CompleteLines(x);
    LeadingValidMeans(ls);
    assert ls[..|ls|] == ls;
    CompleteLinesRoundTrip(x);
    RemainderNoNewline(x);
    CompleteLinesAreLines(x);
  }

  /** The read that hands over bytes writes them after the live ones, and the
      scan then starts at the old end of the live bytes. */
  lemma {:induction false} DataReadScans(s: Splitter)
    requires Consistent(s) && !s.atEof && NextRead(s).0.Data?
    ensures var h := Reserve(s).(reader := NextRead(s).1);
            var b := NextRead(s).0.bytes;
            s.used + |b| <= |h.buf| &&
            var f := Fill(h, b);
            && f.lines == s.lines && Live(f) == Live(s) + b
            && ReadOnce(s).0 == EvalBuf(f, 0).0
            && ReadOnce(s).1 == if EvalBuf(f, 0).1.Ok? then Ok(true) else Err(EvalBuf(f, 0).1.error)
  {
    RoomBeforeRead(s);
    ReadOnceReads(s);
    var h := Reserve(s).(reader := NextRead(s).1);
    var b := NextRead(s).0.bytes;
    var f := Fill(h, b);
    assert f.buf[..s.used] == Live(f)[..s.used] == Live(s);
    ScanFromOldUsed(f, s.used);
    var e := EvalBuf(f, s.used);
    assert ReadOnce(s) == Answer(h, NextRead(s).0) == (e.0, if e.1.Err? then Err(e.1.error) else Ok(true));
  }

  /** A read of n > 0 bytes, from a consistent state.  The call succeeds
      exactly when every complete line of the old live bytes followed by the
      n bytes is UTF-8.  On success those lines are queued, in order, each
      ending in its one '\n'; joined and followed by the new live bytes they
      give back the old live bytes followed by the bytes read, and the state
      is consistent again.  On failure the lines before the bad one are
      queued, the bad one is gone, and the bytes after it stay live. */
  lemma {:induction false} DataRead(s: Splitter)
    requires Consistent(s) && !s.atEof
    requires NextRead(s).0.Data?
    ensures var (t, r) := ReadOnce(s);
            var b := NextRead(s).0.bytes;
            var x := Live(s) + b;
            var ls := CompleteLines(x);
            var k := LeadingValid(ls);
            && t.reader == NextRead(s).1 && !t.atEof && t.used <= |t.buf|
            && (forall j | 0 <= j < |ls| :: IsLine(ls[j]))
            && (r.Ok? <==> forall j | 0 <= j < |ls| :: Utf8.Valid(ls[j]))
            && (r.Ok? ==>
                  && r == Ok(true)
                  && t.lines == s.lines + ls
                  && Live(t) == Remainder(x)
                  && Concat(ls) + Live(t) == x
                  && Consistent(t))
            && (r.Err? ==>
                  && r == Err(InvalidData)
                  && t.lines == s.lines + ls[..k]
                  && k < |ls| && !Utf8.Valid(ls[k])
                  && Live(t) == Concat(ls[k + 1..]) + Remainder(x))
  {
    DataReadScans(s);
    var h := Reserve(s).(reader := NextRead(s).1);
    var f := Fill(h, NextRead(s).0.bytes);
    EvalBufFromStart(f);
    ScannedMeans(s.lines, Live(f), EvalBuf(f, 0).0, EvalBuf(f, 0).1);
  }

  /** Every successful call, and every failed read, leaves a valid state. */
  lemma {:induction false} ValidKept(s: Splitter)
    requires Consistent(s)
    ensures ReadOnce(s).1.Ok? ==> Consistent(ReadOnce(s).0)
    ensures (!s.atEof && NextRead(s).0.OtherErr?) ==> Consistent(ReadOnce(s).0)
  {
    if !s.atEof {
      var reply := NextRead(s).0;
      match reply
      case Data(_) => DataRead(s);
      case Zero => EndOfStream(s);
      case WouldBlock => IdleRead(s);
      case Interrupted => IdleRead(s);
      case OtherErr(e) => FailedRead(s, e);
    }
  }

  // ---------------------------------------------------------------------
  // `read_available`

  /** `read_available` returns `Ok` only once `read_once` has answered
      `Ok(false)`, that is at end of stream; it keeps every queued line. */
  lemma {:induction false} ReadAvailableEndsAtEof(s: Splitter)
    ensures ReadAvailable(s).1.Ok? ==> ReadAvailable(s).0.atEof
    ensures |s.lines| <= |ReadAvailable(s).0.lines|
    ensures ReadAvailable(s).0.lines[..|s.lines|] == s.lines
    ensures ReadOnce(s).1.Err? ==> ReadAvailable(s) == (ReadOnce(s).0, Err(ReadOnce(s).1.error))
    decreases Weight(s.reader), if s.atEof then 0 else 1
  {
    ReadOnceResult(s);
    var (t, r) := ReadOnce(s);
    if r == Ok(true) {
      ReadOnceProgress(s);
      ReadAvailableEndsAtEof(t);
      assert ReadAvailable(s) == ReadAvailable(t);
      var u := ReadAvailable(t).0;
      assert u.lines[..|s.lines|] == u.lines[..|t.lines|][..|s.lines|];
    }
  }

  // ---------------------------------------------------------------------
  // A whole stream of well-formed text

  /** What the read hands over accounts for the bytes the script delivers. */
  lemma {:induction false} ReadDelivers(s: Script, room: nat)
    requires room > 0
    ensures var (reply, rest) := Read(s, room);
            && (reply.Data? ==> Delivered(s) == reply.bytes + Delivered(rest))
            && (reply.Zero? ==> Delivered(s) == [])
            && (reply.WouldBlock? || reply.Interrupted? ==> Delivered(rest) == Delivered(s))
            && (Clean(s) ==> !reply.OtherErr? && Clean(rest))
  {
    if s != [] && s[0].Data? && |s[0].bytes| > room {
      var b := s[0].bytes;
      assert b == b[..room] + b[room..];
      var rest := [Data(b[room..])] + s[1..];
      assert rest[1..] == s[1..];
    }
  }

  /** The invariant of a reader over a script of well-formed text. */
  predicate Good(s: Splitter) {
    && Consistent(s)
    && Clean(s.reader)
    && Utf8.Valid(Live(s) + Delivered(s.reader))
    && (s.atEof ==> s.used == 0 && Delivered(s.reader) == [])
  }

  /** The lines queued so far and the lines still to come. */
  function Pending(s: Splitter): seq<seq<byte>>
    requires s.used <= |s.buf|
  {
    s.lines + SplitLines(Live(s) + Delivered(s.reader))
  }

  /** A read of bytes whose complete lines are all UTF-8 succeeds and queues them. */
  lemma {:induction false} DataReadOk(s: Splitter)
    requires Consistent(s) && !s.atEof && NextRead(s).0.Data?
    requires forall j | 0 <= j < |CompleteLines(Live(s) + NextRead(s).0.bytes)| ::
               Utf8.Valid(CompleteLines(Live(s) + NextRead(s).0.bytes)[j])
    ensures var (t, r) := ReadOnce(s);
            var x := Live(s) + NextRead(s).0.bytes;
            && r == Ok(true) && Consistent(t) && !t.atEof && t.reader == NextRead(s).1
            && t.lines == s.lines + CompleteLines(x) && Live(t) == Remainder(x)
  {
    DataRead(s);
  }

  /** A read of bytes, over well-formed text. */
  lemma {:induction false} DataKeepsPending(s: Splitter)
    requires Good(s) && !s.atEof && NextRead(s).0.Data?
    ensures ReadOnce(s).1.Ok? && Good(ReadOnce(s).0)
    ensures Pending(ReadOnce(s).0) == Pending(s)
  {
    var (reply, rest) := NextRead(s);
    ReadDelivers(s.reader, Room(s));
    var x := Live(s) + reply.bytes;
    var d := Delivered(rest);
    assert Live(s) + Delivered(s.reader) == x + d;
    ValidLines(x, d);
    DataReadOk(s);
    SplitLinesAppend(x, d);
    var t := ReadOnce(s).0;
    var ls := CompleteLines(x);
    assert Live(t) + Delivered(t.reader) == Remainder(x) + d;
    assert Utf8.Valid(Live(t) + Delivered(t.reader));
    assert Clean(t.reader);
    var more := SplitLines(Remainder(x) + d);
    assert Pending(t) == (s.lines + ls) + more;
    assert Pending(s) == s.lines + (ls + more);
    AppendAssoc(s.lines, ls, more);
  }

  /** End of stream, over well-formed text. */
  lemma {:induction false} ZeroKeepsPending(s: Splitter)
    requires Good(s) && !s.atEof && NextRead(s).0.Zero?
    ensures ReadOnce(s).1.Ok? && Good(ReadOnce(s).0)
    ensures Pending(ReadOnce(s).0) == Pending(s)
  {
    ReadDelivers(s.reader, Room(s));
    EndOfStream(s);
    var t := ReadOnce(s).0;
    assert Live(s) + [] == Live(s);
    assert Live(t) + Delivered(t.reader) == [];
    if s.used > 0 {
      assert SplitLines(Live(s)) == [Live(s)];
    }
  }

  /** Over well-formed text, every `read_once` succeeds and keeps the lines
      queued and the lines still to come the same, as a whole. */
  lemma {:induction false} StepKeepsPending(s: Splitter)
    requires Good(s)
    ensures ReadOnce(s).1.Ok? && Good(ReadOnce(s).0)
    ensures Pending(ReadOnce(s).0) == Pending(s)
  {
    if !s.atEof {
      ReadDelivers(s.reader, Room(s));
      match NextRead(s).0
      case Data(_) => DataKeepsPending(s);
      case Zero => ZeroKeepsPending(s);
      case WouldBlock => IdleRead(s);
      case Interrupted => IdleRead(s);
    }
  }

  /** From an invariant state, `read_available` returns `Ok` at end of stream
      with every line queued. */
  lemma {:induction false} ReadAvailableDrains(s: Splitter)
    requires Good(s)
    ensures ReadAvailable(s).1 == Ok(()) && ReadAvailable(s).0.atEof
    ensures ReadAvailable(s).0.lines == Pending(s)
    decreases Weight(s.reader), if s.atEof then 0 else 1
  {
    StepKeepsPending(s);
    var (t, r) := ReadOnce(s);
    if r == Ok(true) {
      ReadOnceProgress(s);
      ReadAvailableDrains(t);
    } else {
      ReadOnceResult(s);
      assert Live(s) + Delivered(s.reader) == [];
    }
  }

  /** A stream of well-formed UTF-8 without transport errors, read by
      `read_available` from a fresh reader, yields exactly the lines of its
      bytes, in order, each with its '\n', and its unterminated last fragment
      as a line of its own. */
  lemma {:induction false} ReadAvailableSplitsLines(script: Script)
    requires Clean(script) && Utf8.Valid(Delivered(script))
    ensures ReadAvailable(Initial(script)).1 == Ok(())
    ensures ReadAvailable(Initial(script)).0.atEof
    ensures ReadAvailable(Initial(script)).0.lines == SplitLines(Delivered(script))
  {
    var s := Initial(script);
    assert Live(s) + Delivered(script) == Delivered(script);
    ReadAvailableDrains(s);
  }

  // ---------------------------------------------------------------------
  // Steps over a stream whose next answer is known

  /** The next answer is a chunk that fits the free space: it is read whole,
      and when the complete lines of the live bytes followed by it are all
      UTF-8, they are queued. */
  lemma {:induction false} ChunkRead(s: Splitter)
    requires Consistent(s) && !s.atEof
    requires s.reader != [] && s.reader[0].Data? && |s.reader[0].bytes| <= BUFFER_SIZE
    requires var ls := CompleteLines(Live(s) + s.reader[0].bytes);
             forall j | 0 <= j < |ls| :: Utf8.Valid(ls[j])
    ensures var (t, r) := ReadOnce(s);
            var x := Live(s) + s.reader[0].bytes;
            && r == Ok(true) && Consistent(t) && !t.atEof && t.reader == s.reader[1..]
            && t.lines == s.lines + CompleteLines(x) && Live(t) == Remainder(x)
  {
    RoomBeforeRead(s);
    assert NextRead(s) == (s.reader[0], s.reader[1..]);
    DataReadOk(s);
  }

  /** The first read of a fresh reader, from a stream that starts with a
      chunk that fits the buffer and whose complete lines are UTF-8. */
  lemma {:induction false} FreshRead(script: Script)
    requires script != [] && script[0].Data? && |script[0].bytes| <= BUFFER_SIZE
    requires var ls := CompleteLines(script[0].bytes);
             forall j | 0 <= j < |ls| :: Utf8.Valid(ls[j])
    ensures var (t, r) := ReadOnce(Initial(script));
            && r == Ok(true) && Consistent(t) && !t.atEof && t.reader == script[1..]
            && t.lines == CompleteLines(script[0].bytes) && Live(t) == Remainder(script[0].bytes)
  {
    var s := Initial(script);
    assert Live(s) + script[0].bytes == script[0].bytes;
    ChunkRead(s);
  }

  /** The next answer would block or was interrupted: nothing is queued and
      the live bytes stay. */
  lemma {:induction false} IdleStep(s: Splitter)
    requires Consistent(s) && !s.atEof
    requires s.reader != [] && (s.reader[0].WouldBlock? || s.reader[0].Interrupted?)
    ensures var (t, r) := ReadOnce(s);
            && r == Ok(true) && Consistent(t) && !t.atEof && t.reader == s.reader[1..]
            && t.lines == s.lines && Live(t) == Live(s)
  {
    RoomBeforeRead(s);
    assert NextRead(s) == (s.reader[0], s.reader[1..]);
    IdleRead(s);
  }

  /** The stream is at its end: well-formed live bytes, if any, are queued
      as the last line, and the reader reaches end of stream. */
  lemma {:induction false} LastRead(s: Splitter)
    requires Consistent(s) && !s.atEof && (s.reader == [] || s.reader[0].Zero?)
    requires Utf8.Valid(Live(s))
    ensures var (t, r) := ReadOnce(s);
            && r == Ok(true) && t.atEof && t.used == 0 && t.reader == s.reader
            && t.lines == s.lines + (if s.used == 0 then [] else [Live(s)])
  {
    RoomBeforeRead(s);
    assert NextRead(s).0 == Zero;
    EndOfStream(s);
  }
}
