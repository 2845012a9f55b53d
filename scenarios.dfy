/** The behaviours the crate's own tests describe, on concrete streams. */
module Scenarios {
  import opened Io
  import opened Utf8
  import opened Lines
  import opened Machine
  import opened Properties

  /** `test`, as bytes. */
  const TEST: seq<byte> := [0x74, 0x65, 0x73, 0x74]

  /** `test\n` arrives in one read: the first `read_once` queues it. */
  lemma {:induction false} OneLineNewline()
    ensures var (t, r) := ReadOnce(Initial([Data(TEST + [LF])]));
            r == Ok(true) && t.lines == [TEST + [LF]] && !t.atEof
  {
    var b: seq<byte> := [0x74, 0x65, 0x73, 0x74, LF];
    assert TEST + [LF] == b;
    CompleteLinesAt(b, 4);
    assert b[..5] == b && b[5..] == [];
    NothingLeft();
    AsciiValid(b);
    FreshRead([Data(b)]);
  }

  /** `test` without '\n': the first `read_once` queues nothing, the second
      meets end of stream and queues `test` as the last line. */
  lemma {:induction false} OneLineNoNewline()
    ensures var (t1, r1) := ReadOnce(Initial([Data(TEST)]));
            var (t2, r2) := ReadOnce(t1);
            && r1 == Ok(true) && t1.lines == []
            && r2 == Ok(true) && t2.lines == [TEST] && t2.atEof
  {
    var b: seq<byte> := [0x74, 0x65, 0x73, 0x74];
    assert FirstNewline(b) == None;
    FreshRead([Data(b)]);
    var t1 := ReadOnce(Initial([Data(b)])).0;
    AsciiValid(b);
    LastRead(t1);
  }

  /** The lines of `1\n\n3\n`, all ASCII, with nothing after the last. */
  lemma {:induction false} ThreeLinesSplit()
    ensures CompleteLines([0x31, LF, LF, 0x33, LF]) == [[0x31, LF], [LF], [0x33, LF]]
    ensures Remainder([0x31, LF, LF, 0x33, LF]) == []
  {
    NothingLeft();
    CompleteLinesCons([0x33, LF], []);
    assert [0x33, LF] + [] == [0x33, LF];
    CompleteLinesCons([LF], [0x33, LF]);
    assert [LF] + [0x33, LF] == [LF, 0x33, LF];
    CompleteLinesCons([0x31, LF], [LF, 0x33, LF]);
    assert [0x31, LF] + [LF, 0x33, LF] == [0x31, LF, LF, 0x33, LF];
  }

  /** `1\n\n3\n`: three lines, the middle one empty but for its '\n'; end
      of stream then adds nothing. */
  lemma {:induction false} ThreeLines()
    ensures var (t1, r1) := ReadOnce(Initial([Data([0x31, LF, LF, 0x33, LF])]));
            var (t2, r2) := ReadOnce(t1);
            && r1 == Ok(true) && r2 == Ok(true) && t2.atEof
            && t2.lines == [[0x31, LF], [LF], [0x33, LF]]
  {
    var b: seq<byte> := [0x31, LF, LF, 0x33, LF];
    ThreeLinesSplit();
    var ls := CompleteLines(b);
    forall j | 0 <= j < |ls| ensures Utf8.Valid(ls[j]) {
      AsciiValid(ls[j]);
    }
    FreshRead([Data(b)]);
    var t1 := ReadOnce(Initial([Data(b)])).0;
    LastRead(t1);
  }

  /** An empty stream: the first `read_once` meets end of stream and queues
      nothing; every later one returns `Ok(false)`. */
  lemma {:induction false} EmptyStream()
    ensures var (t1, r1) := ReadOnce(Initial([]));
            var (t2, r2) := ReadOnce(t1);
            && r1 == Ok(true) && t1.atEof && t1.lines == []
            && r2 == Ok(false) && t2 == t1
  {
    EndOfStream(Initial([]));
    AtEofIsNoOp(ReadOnce(Initial([])).0);
  }

  /** The lines of `\n`, the heart, `\n\n`; the heart is U+1F496, whose
      UTF-8 form is the four bytes 240, 159, 146, 150. */
  lemma {:induction false} HeartSplit()
    ensures CompleteLines([LF, 240, 159, 146, 150, LF, LF]) == [[LF], [240, 159, 146, 150, LF], [LF]]
  {
    NothingLeft();
    CompleteLinesCons([LF], []);
    assert [LF] + [] == [LF];
    var heart: seq<byte> := [240, 159, 146, 150, LF];
    assert heart[..4] == [240, 159, 146, 150];
    CompleteLinesCons(heart, [LF]);
    assert heart + [LF] == [240, 159, 146, 150, LF, LF];
    CompleteLinesCons([LF], heart + [LF]);
    assert [LF] + (heart + [LF]) == [LF, 240, 159, 146, 150, LF, LF];
  }

  /** The heart and its '\n' make a well-formed line. */
  lemma HeartValid()
    ensures Utf8.Valid([240, 159, 146, 150, LF])
  {
    var h: seq<byte> := [240, 159, 146, 150, LF];
    assert CharWidth(h) == 4;
    assert h[4..] == [LF];
    assert Utf8.Valid([LF]);
  }

  /** Each of those lines is well-formed. */
  lemma {:induction false} HeartLinesValid()
    ensures var ls := CompleteLines([LF, 240, 159, 146, 150, LF, LF]);
            forall j | 0 <= j < |ls| :: Utf8.Valid(ls[j])
  {
    HeartSplit();
    var ls := CompleteLines([LF, 240, 159, 146, 150, LF, LF]);
    forall j | 0 <= j < |ls| ensures Utf8.Valid(ls[j]) {
      if j == 1 { HeartValid(); } else { AsciiValid(ls[j]); }
    }
  }

  /** `\n`, the heart, `\n\n`: the four-byte character stays whole inside
      its line. */
  lemma {:induction false} Utf8Line()
    ensures var (t, r) := ReadOnce(Initial([Data([LF, 240, 159, 146, 150, LF, LF])]));
            r == Ok(true) && t.lines == [[LF], [240, 159, 146, 150, LF], [LF]]
  {
    var b: seq<byte> := [LF, 240, 159, 146, 150, LF, LF];
    HeartLinesValid();
    HeartSplit();
    FreshRead([Data(b)]);
  }

  /** A line starting with a NUL and three stray continuation bytes is not
      UTF-8: `read_once` returns `InvalidData`. */
  lemma {:induction false} InvalidUtf8()
    ensures ReadOnce(Initial([Data([0, 159, 146, 150, LF])])).1 == Err(InvalidData)
  {
    var b: seq<byte> := [0, 159, 146, 150, LF];
    var s := Initial([Data(b)]);
    assert Live(s) + b == b;
    CompleteLinesAt(b, 4);
    assert b[5..] == [] && b[..5] == b;
    NothingLeft();
    assert CharWidth(b[1..]) == 0;
    assert !Utf8.Valid(b);
    DataRead(s);
  }

  /** The lines of `1\n2`: one, and `2` left over. */
  lemma {:induction false} FirstBurstSplit()
    ensures CompleteLines([0x31, LF, 0x32]) == [[0x31, LF]] && Remainder([0x31, LF, 0x32]) == [0x32]
  {
    var b: seq<byte> := [0x31, LF, 0x32];
    CompleteLinesAt(b, 1);
    assert b[..2] == [0x31, LF] && b[2..] == [0x32];
    assert FirstNewline([0x32]) == None;
  }

  /** The lines of `2\n3\n4`: two, and `4` left over. */
  lemma {:induction false} SecondBurstSplit()
    ensures CompleteLines([0x32, LF, 0x33, LF, 0x34]) == [[0x32, LF], [0x33, LF]]
    ensures Remainder([0x32, LF, 0x33, LF, 0x34]) == [0x34]
  {
    var b: seq<byte> := [0x32, LF, 0x33, LF, 0x34];
    CompleteLinesAt(b, 1);
    assert b[..2] == [0x32, LF] && b[2..] == [0x33, LF, 0x34];
    var b2: seq<byte> := [0x33, LF, 0x34];
    CompleteLinesAt(b2, 1);
    assert b2[..2] == [0x33, LF] && b2[2..] == [0x34];
    assert FirstNewline([0x34]) == None;
  }

  /** The stream of the incremental test: nothing yet, `1\n2`, nothing,
      `\n3\n4`, then the writer shuts down. */
  const ADDLINES: Script := [WouldBlock, Data([0x31, LF, 0x32]), WouldBlock, Data([LF, 0x33, LF, 0x34]), Zero]

  /** Lines appear as their '\n' arrives, a line split across two reads is
      joined, the fragment left at the end comes out at end of stream, and
      `read_once` then answers `Ok(false)`.  `lines_get` between the calls
      empties the queue. */
  lemma {:induction false} AddLines()
    ensures var (s1, r1) := ReadOnce(Initial(ADDLINES));
            var (s2, r2) := ReadOnce(s1.(lines := []));
            var (s3, r3) := ReadOnce(s2.(lines := []));
            var (s4, r4) := ReadOnce(s3.(lines := []));
            var (s5, r5) := ReadOnce(s4.(lines := []));
            var (s6, r6) := ReadOnce(s5.(lines := []));
            && r1 == Ok(true) && s1.lines == []
            && r2 == Ok(true) && s2.lines == [[0x31, LF]]
            && r3 == Ok(true) && s3.lines == []
            && r4 == Ok(true) && s4.lines == [[0x32, LF], [0x33, LF]]
            && r5 == Ok(true) && s5.lines == [[0x34]]
            && r6 == Ok(false) && s6.atEof
  {
    var s0 := Initial(ADDLINES);
    IdleStep(s0);
    var s1 := ReadOnce(s0).0;
    AddLinesFirstBurst(s1.(lines := []));
    var s2 := ReadOnce(s1.(lines := [])).0;
    IdleStep(s2.(lines := []));
    var s3 := ReadOnce(s2.(lines := [])).0;
    AddLinesSecondBurst(s3.(lines := []));
    var s4 := ReadOnce(s3.(lines := [])).0;
    AddLinesShutdown(s4.(lines := []));
  }

  /** The read of `1\n2`: `1\n` is queued and `2` stays live. */
  lemma {:induction false} AddLinesFirstBurst(s: Splitter)
    requires s.reader == ADDLINES[1..] && Consistent(s) && s.used == 0 && s.lines == [] && !s.atEof
    ensures var (t, r) := ReadOnce(s);
            && r == Ok(true) && t.lines == [[0x31, LF]] && Consistent(t) && !t.atEof
            && Live(t) == [0x32] && t.reader == ADDLINES[2..]
  {
    var b: seq<byte> := [0x31, LF, 0x32];
    assert s.reader[0] == Data(b);
    assert Live(s) + b == b;
    FirstBurstSplit();
    AsciiValid([0x31, LF]);
    ChunkRead(s);
  }

  /** The read of `\n3\n4` after the live `2`: the split line `2\n` is
      joined and queued with `3\n`, and `4` stays live. */
  lemma {:induction false} AddLinesSecondBurst(s: Splitter)
    requires s.reader == ADDLINES[3..] && Consistent(s) && Live(s) == [0x32] && s.lines == [] && !s.atEof
    ensures var (t, r) := ReadOnce(s);
            && r == Ok(true) && t.lines == [[0x32, LF], [0x33, LF]] && Consistent(t) && !t.atEof
            && Live(t) == [0x34] && t.reader == ADDLINES[4..]
  {
    var b: seq<byte> := [0x32, LF, 0x33, LF, 0x34];
    assert s.reader[0] == Data([LF, 0x33, LF, 0x34]);
    assert Live(s) + s.reader[0].bytes == b;
    SecondBurstSplit();
    var ls := CompleteLines(b);
    forall j | 0 <= j < |ls| ensures Utf8.Valid(ls[j]) {
      AsciiValid(ls[j]);
    }
    ChunkRead(s);
  }

  /** The writer shuts down: `4` is queued as the last line, and the next
      `read_once` answers `Ok(false)` and changes nothing. */
  lemma {:induction false} AddLinesShutdown(s: Splitter)
    requires s.reader == ADDLINES[4..] && Consistent(s) && Live(s) == [0x34] && s.lines == [] && !s.atEof
    ensures var (t, r) := ReadOnce(s);
            && r == Ok(true) && t.lines == [[0x34]] && t.atEof
            && ReadOnce(t.(lines := [])) == (t.(lines := []), Ok(false))
  {
    assert s.reader[0] == Zero;
    AsciiValid([0x34]);
    LastRead(s);
    var t := ReadOnce(s).0;
    AtEofIsNoOp(t.(lines := []));
  }
}
