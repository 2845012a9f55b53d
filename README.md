# lineriver: the line-splitting buffer, in Dafny

lineriver reads lines from non-blocking streams. Each reader owns the
stream, a byte buffer `buf`, a count `used` of live bytes at its front, an
`at_eof` flag and a queue `lines` of completed lines. `read_once` makes one
read attempt:

- it grows `buf` so that at least 8192 bytes are free past `used`;
- it reads into `buf[used..]`;
- it scans only the newly arrived bytes for `'\n'`, and splits off,
  UTF-8-checks and queues every complete line.

At end of stream, `read_once` queues the unterminated tail as a last line.
`read_available` repeats `read_once` until it answers `Ok(false)`, and
`lines_get` hands the queue over.

The crate has two copies of this engine. `LineReaderNonBlock` is the type it
exports. `LineReader` is the older generic version, which implements the
`LineRead` trait. The project models both copies as one state machine over
values, and then as two classes with the Rust fields whose methods are
proved to move exactly as that machine says:

| file | module | contents |
|---|---|---|
| `io.dfy` | `Io` | `Option`, `Result`, the error kinds (`InvalidData`, an OS error code) |
| `utf8.dfy` | `Utf8` | bytes, `'\n'`, well-formed UTF-8 as the grammar of section 4 of RFC 3629 |
| `lines.dfy` | `Lines` | the `memchr` search and a reference splitting of a whole byte sequence into lines |
| `machine.dfy` | `Machine` | the stream as a script of read answers, the reader state `Splitter`, and `eval_buf`, `read_once` and `read_available` as functions |
| `properties.dfy` | `Properties` | what one `read_once` and a whole `read_available` do |
| `scenarios.dfy` | `Scenarios` | the crate's own tests, stated on concrete streams |
| `findings.dfy` | `Findings` | two consequences of the error paths of the code, and a corrected machine |
| `line_reader_nonblock.dfy` | `NonBlockReader` | class `LineReaderNonBlock` |
| `linereader.dfy` | `GenericReader` | class `LineReader`, with `from_nonblocking` and the `LineRead` methods |

The stream is a finite script of answers: `Data(bytes)` (at least one byte),
`Zero` (end of stream), `WouldBlock`, `Interrupted` and `OtherErr(e)`. A read
hands over at most the free space it is offered. The rest of a longer chunk
stays first in line, as in a pipe. `Zero` is answered again to every later
read, and an exhausted script reads as `Zero`.

The central results are these:

- `read_once` answers `Ok(false)` exactly when the reader was already at end
  of stream, and then changes nothing.
- From a consistent state (`used <= len(buf)` and no `'\n'` among the live
  bytes), a successful read of n > 0 bytes queues the complete lines of the
  old live bytes followed by the new ones. Each queued line ends in its only
  `'\n'`. Joined and followed by the new live bytes, they give back the old live
  bytes followed by the n bytes read, and no `'\n'` is left live. The error
  case is stated exactly as well.
- Every successful call and every failed read keep the state consistent.
  From a consistent state, scanning from the old `used` misses no boundary,
  because no `'\n'` is live between calls. A call that answers
  `InvalidData` for a bad line can leave a `'\n'` live, and a later read
  then joins two lines into one (see "## Findings").
- For a stream of well-formed UTF-8 without transport errors,
  `read_available` from a fresh reader returns `Ok` at end of stream. The
  lines it queues are exactly the reference splitting of the bytes the
  stream delivered.

The buffer is grown with zeros before every read. On `WouldBlock` and
`Interrupted` that growth is the only change: nothing is queued and `used`
stays put.

Where the crate's doc comments and its code disagree, the model follows the
code: the doc comments of `read_once` (src/line_reader_nonblock.rs:80-83,
src/lineread.rs:28-31) say `Ok(true)` means end of stream. The code answers
`Ok(false)` only when already at end of stream on entry, and `Ok(true)`
otherwise, and the crate's tests rely on that.

## Model

| member | source | states |
|---|---|---|
| `Utf8.CharWidth` | src/line_reader_nonblock.rs:25-30 | the width of the UTF-8 character at the front: at most 4 bytes, a one-byte character is ASCII, a longer one has a lead byte of at least 0xC2 followed by continuation bytes (the test `str::from_utf8` applies, per RFC 3629 section 4) |
| `Utf8.Valid` | src/line_reader_nonblock.rs:25-30 | the acceptance rule of `str::from_utf8`: a sequence of UTF-8 characters and nothing else. No contract of its own; `Utf8.SplitAfterNewline`, `Lines.ValidLines` and `Machine.U8ArrayToString` state what follows from it |
| `Utf8.SplitAfterNewline` | src/line_reader_nonblock.rs:61-68 | cutting well-formed UTF-8 just after a `'\n'` leaves two well-formed halves, so splitting at newlines never breaks a character |
| `Lines.FirstNewline` | src/line_reader_nonblock.rs:61 | `memchr(b'\n', s)`: the index found lies inside `s` and holds a `'\n'` |
| `Lines.FirstNewlineSpec` | src/line_reader_nonblock.rs:61 | no `'\n'` lies before the index found, and nothing is found exactly when `s` holds no `'\n'` |
| `Lines.FirstNewlineAt` | src/line_reader_nonblock.rs:61 | a `'\n'` with none before it is the one found, so the search is determined by the first `'\n'` |
| `Lines.FirstNewlineAfter` | src/line_reader_nonblock.rs:94-116 | searching past a prefix without `'\n'` finds the same `'\n'`, shifted by the prefix length |
| `Lines.FirstNewlineBefore` | src/line_reader_nonblock.rs:61 | a `'\n'` found in `a` is the first one of `a` followed by anything |
| `Lines.CompleteLinesAreLines` | src/line_reader_nonblock.rs:59-75 | every line split off is a complete line: it ends in `'\n'` and holds no other |
| `Lines.CompleteLines` | src/line_reader_nonblock.rs:59-75 | the lines the scan splits off, in order. No contract of its own; `Lines.CompleteLinesAreLines`, `Lines.CompleteLinesAt`, `Lines.CompleteLinesRoundTrip` and `Lines.CompleteLinesCount` state that they are complete lines, found at each first `'\n'`, one per `'\n'`, and that they join back to the input |
| `Lines.Remainder` | src/line_reader_nonblock.rs:59-75 | what stays live after the scan. No contract of its own; `Lines.RemainderNoNewline`, `Lines.CompleteLinesRoundTrip` and `Lines.RemainderEmpty` state that it holds no `'\n'`, completes the round trip, and is empty exactly when the input is empty or ends in `'\n'` |
| `Lines.SplitLines` | src/line_reader_nonblock.rs:98-106 | the reference splitting: the complete lines, then the unterminated tail that the end-of-stream flush queues. No contract of its own; `Lines.SplitLinesShape`, `Lines.SplitLinesAppend` and `Lines.SplitLinesCount` characterise it |
| `Lines.RemainderNoNewline` | src/line_reader_nonblock.rs:59-75 | what follows the last `'\n'` holds no `'\n'` |
| `Lines.CompleteLinesAt` | src/line_reader_nonblock.rs:61-69 | one step of the splitting: the line up to the first `'\n'`, then the splitting of the rest |
| `Lines.CompleteLinesCons` | src/line_reader_nonblock.rs:61-69 | a complete line in front is split off as it is, and the rest is split as before |
| `Lines.CompleteLinesRoundTrip` | src/line_reader_nonblock.rs:59-75 | the complete lines, joined and followed by the remainder, give back the input byte for byte |
| `Lines.SplitLinesAppend` | src/line_reader_nonblock.rs:113-117 | the complete lines of `x` come first among the lines of `x + t`, whatever `t` is, so lines can be split off as bytes arrive |
| `Lines.SplitLinesShape` | src/line_reader_nonblock.rs:98-106 | the reference splitting joins back to its input, has no empty line, every line but the last is complete, and the last is complete or holds no `'\n'` |
| `Lines.CompleteLinesCount` | src/line_reader_nonblock.rs:61-69 | there is one complete line per `'\n'` |
| `Lines.NewlinesAfterFirst` | src/line_reader_nonblock.rs:61-64 | the first `'\n'` is one of the `'\n'` of the input, and the others come after it |
| `Lines.RemainderEmpty` | src/line_reader_nonblock.rs:99-104 | a tail is left for the end-of-stream flush exactly when the input is non-empty and does not end in `'\n'` |
| `Lines.SplitLinesCount` | src/line_reader_nonblock.rs:98-106 | text with K newlines splits into K lines, or K + 1 when an unterminated fragment ends it |
| `Lines.ValidLines` | src/line_reader_nonblock.rs:68 | in well-formed UTF-8, every complete line is well-formed on its own, and so is everything after the last one |
| `Machine.Read` | src/line_reader_nonblock.rs:96 | one read into `room` bytes hands over at most `room` bytes, end of stream is answered again, and every other answer consumes part of the script |
| `Machine.Initial` | src/line_reader_nonblock.rs:37-43 | a new reader is not at end of stream and has an empty buffer, no live bytes and no lines |
| `Machine.U8ArrayToString` | src/line_reader_nonblock.rs:25-30 | the bytes come back unchanged exactly when they are well-formed UTF-8, otherwise the error is `InvalidData` |
| `Machine.Reserve` | src/line_reader_nonblock.rs:91-93 | the buffer is grown to `used + 8192` with zero bytes when it is shorter, its old contents kept, and nothing else changes |
| `Machine.Fill` | src/line_reader_nonblock.rs:113-114 | the bytes read land after the live ones and `used` grows by their count, so the live bytes become the old live bytes followed by the new |
| `Machine.EvalBuf` | src/line_reader_nonblock.rs:59-75 | the scan changes only `buf`, `used` and `lines`, keeps `used <= len(buf)`, never raises `used`, only appends to `lines`, and fails only with `InvalidData` |
| `Machine.SplitAt` | src/line_reader_nonblock.rs:63-69 | one turn of the loop strictly lowers `used`, keeps `used <= len(buf)`, only appends to `lines`, and fails only with `InvalidData` |
| `Machine.Answer` | src/line_reader_nonblock.rs:97-121 | what `read_once` does with each answer of the read. No contract of its own; `Properties.DataRead`, `Properties.EndOfStream`, `Properties.IdleRead` and `Properties.FailedRead` state each case |
| `Machine.Flush` | src/line_reader_nonblock.rs:98-106 | the end-of-stream branch. No contract of its own; `Properties.EndOfStream` states its three cases, the failed flush included |
| `Machine.ReadOnce` | src/line_reader_nonblock.rs:87-123 | one `read_once`. No contract of its own; `Properties.ReadOnceReads`, `Properties.ReadOnceResult`, `Properties.DataRead` and `Properties.ValidKept` state what it does |
| `Machine.ReadAvailable` | src/line_reader_nonblock.rs:128-131 | `read_once` repeated while it answers `Ok(true)`. No contract of its own; `Properties.ReadAvailableEndsAtEof`, `Properties.ReadAvailableDrains` and `Properties.ReadAvailableSplitsLines` state what it does |
| `Machine.ReadOnceProgress` | src/line_reader_nonblock.rs:128-131 | every `Ok(true)` consumes part of the script or reaches end of stream, so the loop of `read_available` ends on every finite script |
| `Properties.ReadOnceReads` | src/line_reader_nonblock.rs:91-97 | away from end of stream, the read is offered a non-empty region and its answer decides the rest of the call |
| `Properties.EvalBufFinds` | src/line_reader_nonblock.rs:61-64 | the scan splits just after the first `'\n'` of `buf[pos..used]` |
| `Properties.EvalBufStops` | src/line_reader_nonblock.rs:70-73 | with no `'\n'` in `buf[pos..used]` the scan changes nothing and succeeds |
| `Properties.ScanFromOldUsed` | src/line_reader_nonblock.rs:113-117 | scanning from `oldused` does exactly what a scan from 0 does when no `'\n'` lies before `oldused` |
| `Properties.LeadingValidMeans` | src/line_reader_nonblock.rs:68 | the count of well-formed lines at the front is exact: all before it are well-formed, and the next is not |
| `Properties.SplitAtValid` | src/line_reader_nonblock.rs:63-69 | a well-formed line is queued and the scan goes on at 0 in the rest of the buffer |
| `Properties.SplitAtInvalid` | src/line_reader_nonblock.rs:63-68 | a line that is not UTF-8 has already left the buffer and `used` when `InvalidData` is returned, and it is not queued |
| `Properties.SplitAtOkValid` | src/line_reader_nonblock.rs:68 | a turn of the loop that succeeds has met a well-formed line |
| `Properties.ScanEndsStop` | src/line_reader_nonblock.rs:70-73 | with no `'\n'` in `buf[pos..used]`, the scan ends with the state as it is and `Ok` |
| `Properties.ScanEndsTurn` | src/line_reader_nonblock.rs:61-64 | with a `'\n'` in `buf[pos..used]`, it lies before `used` and the scan's end is that of the turn just after it |
| `Properties.ScannedIntoCons` | src/line_reader_nonblock.rs:59-75 | a scan that queues one line and then scans the rest fits the description of the whole scan |
| `Properties.ScannedAfterLine` | src/line_reader_nonblock.rs:63-69 | a well-formed first line followed by a scan of the remaining bytes is a scan of all the bytes |
| `Properties.ScannedBadLine` | src/line_reader_nonblock.rs:63-68 | a first line that is not UTF-8 stops the scan with the bytes after it still live |
| `Properties.ScanGoodLine` | src/line_reader_nonblock.rs:63-69 | the scan of a buffer whose first line is well-formed queues it and goes on with the rest |
| `Properties.ScanBadLine` | src/line_reader_nonblock.rs:63-68 | the scan of a buffer whose first line is not UTF-8 returns `InvalidData` with that line removed |
| `Properties.EvalBufFromStart` | src/line_reader_nonblock.rs:59-75 | a scan from 0 queues the leading well-formed complete lines of the live bytes, in order, and stops either when none is left or at the first bad one |
| `Properties.RoomBeforeRead` | src/line_reader_nonblock.rs:91-96 | before the read at least 8192 bytes are free past `used`, and growing the buffer keeps the live bytes |
| `Properties.AtEofIsNoOp` | src/line_reader_nonblock.rs:88-90 | at end of stream `read_once` answers `Ok(false)` and `read_available` answers `Ok(())`, and neither changes any field |
| `Properties.ReadOnceResult` | src/line_reader_nonblock.rs:87-123 | `Ok(false)` exactly when already at end of stream, end of stream is never left, and queued lines are only ever appended to |
| `Properties.IdleRead` | src/line_reader_nonblock.rs:107-112 | `WouldBlock` or `Interrupted` answer `Ok(true)` and keep `used`, the live bytes, the lines and `at_eof`; only the buffer may have grown |
| `Properties.FailedRead` | src/line_reader_nonblock.rs:118-120 | any other read error is returned unchanged, with the live bytes, the lines and `at_eof` kept |
| `Properties.EndOfStream` | src/line_reader_nonblock.rs:98-106 | with no live bytes nothing is queued; otherwise the live bytes, exactly as buffered, become one last line, `used` drops to 0 and `at_eof` is set, both with `Ok(true)`; a last line that is not UTF-8 gives `InvalidData` with `buf` taken but `used` and `at_eof` as they were |
| `Properties.ScannedMeans` | src/line_reader_nonblock.rs:59-75 | a scan succeeds exactly when every complete line is well-formed; it then queues all of them and leaves the remainder live, and otherwise queues those before the first bad one and leaves live what follows it |
| `Properties.DataReadScans` | src/line_reader_nonblock.rs:113-116 | a read of bytes writes them after the live ones, and the scan from `oldused` is the scan from 0 |
| `Properties.DataRead` | src/line_reader_nonblock.rs:113-117 | from a consistent state (`used <= len(buf)`, no live `'\n'`), a read of n > 0 bytes succeeds exactly when every complete line of the old live bytes followed by the n bytes is well-formed; it then queues those lines in order, and they, followed by the new live bytes, give back those bytes, with no `'\n'` left live; otherwise the lines before the bad one are queued, the bad one is gone and the bytes after it stay live |
| `Properties.ValidKept` | src/line_reader_nonblock.rs:87-123 | from a consistent state, every successful call, and every failed read, leaves `used <= len(buf)` and no `'\n'` among the live bytes |
| `Properties.ReadAvailableEndsAtEof` | src/line_reader_nonblock.rs:128-131 | `read_available` returns `Ok` only at end of stream, stops at the first error, and only appends to the queue |
| `Properties.ReadDelivers` | src/line_reader_nonblock.rs:96 | a read accounts for the bytes of the script: what it hands over, followed by what the rest of the script delivers, is what the script delivered |
| `Properties.ChunkRead` | src/line_reader_nonblock.rs:113-117 | a next chunk that fits the free space is read whole, and when the complete lines of the live bytes followed by it are all UTF-8, they are queued and what follows the last stays live |
| `Properties.FreshRead` | src/line_reader_nonblock.rs:113-117 | the first read of a fresh reader queues the complete lines of the first chunk and leaves the rest live |
| `Properties.IdleStep` | src/line_reader_nonblock.rs:107-112 | a next answer that would block or was interrupted queues nothing, keeps the live bytes, and consumes that answer |
| `Properties.LastRead` | src/line_reader_nonblock.rs:98-106 | at the end of the stream, well-formed live bytes, if any, are queued as the last line and end of stream is reached |
| `Properties.DataReadOk` | src/line_reader_nonblock.rs:113-117 | a read of bytes whose complete lines are all well-formed answers `Ok(true)` and queues them |
| `Properties.DataKeepsPending` | src/line_reader_nonblock.rs:113-117 | over well-formed text, a read of bytes succeeds and keeps the queued lines followed by the lines still to come unchanged |
| `Properties.ZeroKeepsPending` | src/line_reader_nonblock.rs:98-106 | over well-formed text, end of stream succeeds and the flushed line is the one still to come |
| `Properties.StepKeepsPending` | src/line_reader_nonblock.rs:87-123 | over a well-formed stream without transport errors, every `read_once` succeeds and keeps the invariant and the lines to come |
| `Properties.ReadAvailableDrains` | src/line_reader_nonblock.rs:128-131 | from an invariant state, `read_available` returns `Ok` at end of stream with every line to come queued |
| `Properties.ReadAvailableSplitsLines` | src/line_reader_nonblock.rs:128-131 | a well-formed stream without transport errors, read to its end from a fresh reader, yields exactly the reference splitting of its bytes |
| `Scenarios.OneLineNewline` | tests/lineriver_tests.rs:25-30 | `test\n` is queued by the first `read_once` |
| `Scenarios.OneLineNoNewline` | tests/lineriver_tests.rs:33-41 | `test` is queued only by the second `read_once`, at end of stream |
| `Scenarios.ThreeLinesSplit` | tests/lineriver_tests.rs:55-63 | the lines of `1\n\n3\n` are `1\n`, `\n`, `3\n`, with nothing after them |
| `Scenarios.ThreeLines` | tests/lineriver_tests.rs:55-63 | two `read_once` calls on `1\n\n3\n` queue those three lines and reach end of stream |
| `Scenarios.EmptyStream` | tests/lineriver_tests.rs:66-90 | an empty stream queues nothing, and every later `read_once` answers `Ok(false)` without effect |
| `Scenarios.HeartSplit` | tests/lineriver_tests.rs:93-106 | the lines of `\n`, U+1F496, `\n\n` keep the four-byte character whole |
| `Scenarios.HeartValid` | tests/lineriver_tests.rs:93-106 | U+1F496 followed by `\n` is well-formed UTF-8 |
| `Scenarios.HeartLinesValid` | tests/lineriver_tests.rs:93-106 | each of those lines is well-formed |
| `Scenarios.Utf8Line` | tests/lineriver_tests.rs:93-106 | one `read_once` queues the three lines |
| `Scenarios.InvalidUtf8` | tests/lineriver_tests.rs:109-118 | a line that is not UTF-8 makes `read_once` return `InvalidData` |
| `Scenarios.FirstBurstSplit` | tests/lineriver_tests.rs:126-128 | the lines of `1\n2` are `1\n`, with `2` left over |
| `Scenarios.SecondBurstSplit` | tests/lineriver_tests.rs:131-133 | the lines of `2\n3\n4` are `2\n`, `3\n`, with `4` left over |
| `Scenarios.AddLines` | tests/lineriver_tests.rs:121-142 | over the incremental stream, lines appear as their `'\n'` arrives, a line split across two reads is joined, the tail comes out at end of stream, and `read_once` then answers `Ok(false)` |
| `Scenarios.AddLinesFirstBurst` | tests/lineriver_tests.rs:126-128 | the read of `1\n2` queues `1\n` and leaves `2` live |
| `Scenarios.AddLinesSecondBurst` | tests/lineriver_tests.rs:131-133 | the read of `\n3\n4` after a live `2` queues `2\n` and `3\n` and leaves `4` live |
| `Scenarios.AddLinesShutdown` | tests/lineriver_tests.rs:134-139 | end of stream queues `4`, and the next `read_once` answers `Ok(false)` |
| `Findings.PhantomNulLine` | src/line_reader_nonblock.rs:98-106 | as written: after a failed flush of `\xFF` the buffer is taken but `used` stays 1, and the next call queues a line holding a NUL byte the stream never sent |
| `Findings.MissedNewline` | src/line_reader_nonblock.rs:59-75 | as written: after a bad line, the good line after it stays live with its `'\n'`, and the next read queues a line holding two `'\n'` |
| `Findings.MissedNewlineFirstRead` | src/line_reader_nonblock.rs:113-117 | the first read of that stream fails and leaves `a\n` live |
| `Findings.MissedNewlineSecondRead` | src/line_reader_nonblock.rs:113-117 | the second read scans only the new bytes and joins them to the live `a\n` |
| `Findings.BadThenGood` | src/line_reader_nonblock.rs:59-75 | the complete lines of `\xFF\n a\n` are those two lines |
| `Findings.EvalBufCorrected` | src/line_reader_nonblock.rs:59-75 | corrected scan: changes only `buf`, `used` and `lines`, keeps `used <= len(buf)`, and never raises `used` |
| `Findings.SplitAtCorrected` | src/line_reader_nonblock.rs:63-69 | one turn of the corrected loop strictly lowers `used` with the same frame |
| `Findings.CorrectedTurn` | src/line_reader_nonblock.rs:63-69 | one corrected turn: a well-formed line is queued and the scan goes on from 0 after it; a malformed one is dropped, the scan goes on all the same, and the answer is `InvalidData` |
| `Findings.FlushCorrected` | src/line_reader_nonblock.rs:98-106 | corrected end-of-stream branch that resets `used` on failure too. No contract of its own; `Findings.AnswerKeepsConsistent` and `Findings.PhantomNulLineFixed` state what it does |
| `Findings.AnswerCorrected` | src/line_reader_nonblock.rs:97-121 | corrected handling of each answer of the read. No contract of its own; `Findings.AnswerKeepsConsistent` states that it keeps the reader consistent |
| `Findings.ReadOnceCorrected` | src/line_reader_nonblock.rs:87-123 | corrected `read_once`. No contract of its own; `Findings.CorrectedKeepsConsistent` and `Findings.CorrectedAgrees` state what it does |
| `Findings.CorrectedScanClears` | src/line_reader_nonblock.rs:59-75 | the corrected scan leaves no `'\n'` among the live bytes, whatever lines fail |
| `Findings.NoNewlineLeft` | src/line_reader_nonblock.rs:70-73 | when no `'\n'` lies before `pos` nor in `buf[pos..used]`, the reader is consistent |
| `Findings.ScanAgrees` | src/line_reader_nonblock.rs:59-75 | where the scan as written succeeds, the corrected scan does the same |
| `Findings.CorrectedKeepsConsistent` | src/line_reader_nonblock.rs:87-123 | the corrected `read_once` leaves `used <= len(buf)` and no live `'\n'` on every outcome, errors included |
| `Findings.AnswerKeepsConsistent` | src/line_reader_nonblock.rs:97-121 | every answer of the read, errors included, leaves the corrected reader consistent |
| `Findings.CorrectedAgrees` | src/line_reader_nonblock.rs:87-123 | where `read_once` as written succeeds, the corrected one does exactly the same |
| `Findings.CorrectedFinds` | src/line_reader_nonblock.rs:61-64 | the corrected scan too splits after the first `'\n'` of `buf[pos..used]` |
| `Findings.PhantomNulLineFixed` | src/line_reader_nonblock.rs:98-106 | the corrected machine reports the bad tail, stays consistent, and then reaches end of stream without queueing anything |
| `Findings.MissedNewlineFixed` | src/line_reader_nonblock.rs:59-75 | the corrected machine reports the bad line and then queues `a\n` and `b\n` as two lines |
| `Findings.MissedNewlineFixedFirstRead` | src/line_reader_nonblock.rs:113-117 | the corrected first read drops the bad line, queues `a\n`, and leaves nothing live |
| `Findings.BadThenGoodCorrected` | src/line_reader_nonblock.rs:59-75 | the corrected scan of `\xFF\n a\n` drops the first line, queues the second and reports the error |
| `Findings.GoodLineCorrected` | src/line_reader_nonblock.rs:63-69 | the corrected scan of a live `a\n` queues it and leaves nothing live |
| `NonBlockReader.LineReaderNonBlock.Init` | src/line_reader_nonblock.rs:37-43 | the fields start as the initial state |
| `NonBlockReader.LineReaderNonBlock.New` | src/line_reader_nonblock.rs:34-44 | `new` succeeds exactly when switching the descriptor to non-blocking mode does, and then gives a fresh reader in the initial state |
| `NonBlockReader.LineReaderNonBlock.Eof` | src/line_reader_nonblock.rs:46-57 | `eof` answers `at_eof`, and once it is true `read_once` and `read_available` change nothing |
| `NonBlockReader.LineReaderNonBlock.EvalBuf` | src/line_reader_nonblock.rs:59-75 | the loop with `split_off`, `swap` and `push` leaves the fields as the scan of the machine says |
| `NonBlockReader.LineReaderNonBlock.SplitLine` | src/line_reader_nonblock.rs:63-69 | one turn of the loop strictly lowers `used`; a failing line ends the scan as the machine's turn does, and a good one leaves the fields from which the machine's scan goes on at 0 |
| `NonBlockReader.LineReaderNonBlock.SplitOff` | src/line_reader_nonblock.rs:63-66 | `split_off` then `swap`: the line is the buffer's bytes up to the cut, the buffer is the bytes after it, and `used` drops by the cut, nothing else changing |
| `NonBlockReader.LineReaderNonBlock.ReadOnce` | src/line_reader_nonblock.rs:87-123 | the fields and the answer after the call are those of the machine's `read_once` |
| `NonBlockReader.LineReaderNonBlock.Grow` | src/line_reader_nonblock.rs:91-93 | the buffer is resized with zeros to `used + BUFFER_SIZE` when shorter, as the machine's reserve step says |
| `NonBlockReader.LineReaderNonBlock.Act` | src/line_reader_nonblock.rs:97-122 | the `match` on the answer of the read leaves the fields and the answer as the machine says for that answer |
| `NonBlockReader.LineReaderNonBlock.Flush` | src/line_reader_nonblock.rs:98-106 | the end-of-stream branch leaves the fields and the answer as the machine's flush says, error path included |
| `NonBlockReader.LineReaderNonBlock.ReadAvailable` | src/line_reader_nonblock.rs:128-131 | the loop leaves the fields and the answer as the machine's `read_available` says |
| `NonBlockReader.LineReaderNonBlock.LinesGet` | src/line_reader_nonblock.rs:137-139 | the queued lines are handed over in order and the queue is left empty, nothing else changing |
| `GenericReader.LineReader.Init` | src/linereader.rs:42-48 | the fields start as the initial state |
| `GenericReader.LineReader.New` | src/linereader.rs:39-49 | `new` succeeds exactly when switching the descriptor to non-blocking mode does, and then gives a fresh reader in the initial state |
| `GenericReader.LineReader.FromNonblocking` | src/linereader.rs:58-66 | `from_nonblocking` always succeeds with a fresh reader in the initial state |
| `GenericReader.LineReader.Eof` | src/lineread.rs:14-23 | `eof` answers `at_eof`, and once it is true `read_once` and `read_available` change nothing |
| `GenericReader.LineReader.EvalBuf` | src/linereader.rs:69-85 | the loop leaves the fields as the scan of the machine says |
| `GenericReader.LineReader.SplitLine` | src/linereader.rs:73-79 | one turn of the loop strictly lowers `used`; a failing line ends the scan as the machine's turn does, and a good one leaves the fields from which the machine's scan goes on at 0 |
| `GenericReader.LineReader.SplitOff` | src/linereader.rs:73-76 | `split_off` then `swap`: the line is the buffer's bytes up to the cut, the buffer is the bytes after it, and `used` drops by the cut, nothing else changing |
| `GenericReader.LineReader.ReadOnce` | src/linereader.rs:95-131 | the fields and the answer after the call are those of the machine's `read_once` |
| `GenericReader.LineReader.Grow` | src/linereader.rs:99-101 | the buffer is resized with zeros to `used + BUFFER_SIZE` when shorter, as the machine's reserve step says |
| `GenericReader.LineReader.Act` | src/linereader.rs:105-130 | the `match` on the answer of the read leaves the fields and the answer as the machine says for that answer |
| `GenericReader.LineReader.Flush` | src/linereader.rs:106-114 | the end-of-stream branch leaves the fields and the answer as the machine's flush says, error path included |
| `GenericReader.LineReader.ReadAvailable` | src/lineread.rs:40-43 | the default `read_available` of the trait leaves the fields and the answer as the machine's `read_available` says |
| `GenericReader.LineReader.LinesGet` | src/linereader.rs:134-136 | the queued lines are handed over in order and the queue is left empty, nothing else changing |

## Left out

- `blocking::disable` (src/blocking.rs) calls `fcntl` on the descriptor. Its outcome is a parameter (`disabled`) of the two `New` methods.
- The `AsRawFd` implementations and `LineReadFd` only expose the OS descriptor. They are not modelled.
- The `tracing::instrument` attributes are logging only.
- `Zero` never changes once reached (machine.dfy, `Read`), so a stream that sends data after an `Ok(0)` cannot be written down. This matters only after a failed flush, where the reader as written reads again (`Findings.PhantomNulLine`).
- The stream is a finite script. A stream that answers `WouldBlock` forever, on which `read_available` never returns, cannot be written down, so `Machine.ReadAvailable` is total.
- The read's error is kept as a value (`OtherErr(e)` with an opaque OS code). Error messages, and the `Utf8Error` wrapped inside `InvalidData`, are not modelled.
- `usize` is unbounded here. Buffer sizes near the address-space limit, and allocation failure in `resize`, are not modelled.
- `Vec` capacity is not modelled, only its length. `buf` is a value, and `split_off`/`swap` are stated on values.
- A `String` is held as its UTF-8 bytes. `U8ArrayToString` returns the bytes unchanged; character decoding beyond the validity grammar is not modelled.
- `has_lines` does not exist in the code, so it is not modelled.
- The two classes follow the code as written, including the two error-path behaviours under "## Findings". The corrected machine is a separate set of functions in `Findings`; it has no class of its own.

## Findings

| source | as written | input that shows it | evidently intended | confidence | as-written member | corrected member |
|---|---|---|---|---|---|---|
| src/line_reader_nonblock.rs:99-104 | a last line that is not UTF-8 returns `InvalidData` after `mem::take` has emptied `buf` but before `used` is reset, leaving `used` beyond the buffer's length; the next `read_once` grows the empty buffer with zeros and queues `used` NUL bytes as a line (the same code is at src/linereader.rs:107-111) | stream `\xFF` then end of stream, with `read_once` called again after the error | the bad tail is dropped, `used` becomes 0, and no byte that was not read is ever queued | not executed | `Findings.PhantomNulLine` | `Findings.CorrectedKeepsConsistent` |
| src/line_reader_nonblock.rs:63-68 | a line that is not UTF-8 returns from `eval_buf` at once, leaving bytes after it unscanned but counted as live; the next read scans only from the old `used`, so a `'\n'` in those bytes is never found and two lines come out as one (the same code is at src/linereader.rs:73-78) | `\xFF\na\n` in one read, then `b\n`, with `read_once` called again after the error | the scan goes on past the bad line, so no `'\n'` is left live and each line comes out on its own | not executed | `Findings.MissedNewline` | `Findings.CorrectedScanClears` |
