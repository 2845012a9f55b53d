/** The line-splitting buffer as a state machine over values.  Both readers of
    the crate, `LineReaderNonBlock` and `LineReader`, hold the same four pieces
    of state and run the same `read_once`; their classes are proved to move
    exactly as the functions here say. */
module Machine {
  import opened Io
  import opened Utf8
  import opened Lines

  /** The free space `read_once` guarantees past the live bytes. */
  const BUFFER_SIZE: nat := 8192

  /** A Rust `String`, held as its UTF-8 bytes. */
  type Text = seq<byte>

  /** What one successful `read` hands over: at least one byte. */
  type Chunk = b: seq<byte> | |b| > 0 witness [0]

  /** The answer of the underlying `Read` to one `read` call. */
  datatype ReadOutcome =
    | Data(bytes: Chunk)        // Ok(n) with n > 0
    | Zero                      // Ok(0): end of stream
    | WouldBlock                // ErrorKind::WouldBlock
    | Interrupted               // ErrorKind::Interrupted
    | OtherErr(error: IoError)  // any other error

  /** The underlying stream, as the answers it will give.  A chunk longer than
      the room offered is handed over in part and the rest stays first in line;
      end of stream, once reached, is answered again to every later read, and
      an exhausted script is at end of stream. */
  type Script = seq<ReadOutcome>

  /** One `read` into a region of `room` bytes: the answer and the stream after it. */
  function Read(s: Script, room: nat): (res: (ReadOutcome, Script))
    requires room > 0
    ensures res.0.Data? ==> |res.0.bytes| <= room
    ensures res.0.Zero? ==> res.1 == s
    ensures !res.0.Zero? ==> Weight(res.1) < Weight(s)
  {
    if s == [] then (Zero, s)
    else
      match s[0]
      case Data(b) =>
        if |b| <= room then (s[0], s[1..])
        else
          var rest := [Data(b[room..])] + s[1..];
          assert rest[1..] == s[1..];
          (Data(b[..room]), rest)
      case Zero => (Zero, s)
      case _ => (s[0], s[1..])
  }

  /** How much a script has left to say: one per answer, plus its bytes. */
  function Weight(s: Script): nat {
    if s == [] then 0
    else (if s[0].Data? then |s[0].bytes| + 1 else 1) + Weight(s[1..])
  }

  /** The bytes a script delivers before its end of stream. */
  function Delivered(s: Script): seq<byte> {
    if s == [] then []
    else
      match s[0]
      case Data(b) => b + Delivered(s[1..])
      case Zero => []
      case _ => Delivered(s[1..])
  }

  /** The script reports no transport error before its end of stream. */
  predicate Clean(s: Script) {
    s == [] || s[0].Zero? || (!s[0].OtherErr? && Clean(s[1..]))
  }

  /** The fields of a reader: the owned stream, `at_eof`, `buf`, `used` and
      the queue `lines` of completed lines. */
  datatype Splitter = Splitter(reader: Script, atEof: bool, buf: seq<byte>, used: nat, lines: seq<Text>)

  /** A freshly constructed reader. */
  function Initial(reader: Script): (s: Splitter)
    ensures !s.atEof && s.buf == [] && s.used == 0 && s.lines == [] && s.reader == reader
  {
    Splitter(reader, false, [], 0, [])
  }

  /** The live bytes: read, not yet handed out as a line. */
  function Live(s: Splitter): seq<byte>
    requires s.used <= |s.buf|
  {
    s.buf[..s.used]
  }

  /** The state every successful call leaves behind: the live bytes are inside
      the buffer and none of them is a '\n', so a later scan may start at the
      old end of the live bytes. */
  predicate Consistent(s: Splitter) {
    s.used <= |s.buf| && LF !in Live(s)
  }

  /** `u8array_to_string`: the bytes as a string when they are well-formed
      UTF-8, an `InvalidData` error when not. */
  function U8ArrayToString(buf: seq<byte>): (r: Result<Text>)
    ensures r.Ok? <==> Utf8.Valid(buf)
    ensures r.Ok? ==> r.value == buf
    ensures r.Err? ==> r.error == InvalidData
  {
    if Utf8.Valid(buf) then Ok(buf) else Err(InvalidData)
  }

  function Zeros(n: nat): (z: seq<byte>)
    ensures |z| == n && forall k | 0 <= k < n :: z[k] == 0
  {
    seq(n, _ => 0)
  }

  /** `buf.resize(used + BUFFER_SIZE, 0)` when the free space is short. */
  function Reserve(s: Splitter): (t: Splitter)
    ensures t == s.(buf := t.buf)
    ensures |t.buf| == if |s.buf| < s.used + BUFFER_SIZE then s.used + BUFFER_SIZE else |s.buf|
    ensures t.buf[..|s.buf|] == s.buf
    ensures forall k | |s.buf| <= k < |t.buf| :: t.buf[k] == 0
  {
    if |s.buf| < s.used + BUFFER_SIZE then s.(buf := s.buf + Zeros(s.used + BUFFER_SIZE - |s.buf|))
    else s
  }

  /** The read writes its chunk into `buf[used..]` and `used` grows by its length. */
  function Fill(s: Splitter, bytes: seq<byte>): (t: Splitter)
    requires s.used + |bytes| <= |s.buf|
    ensures t == s.(buf := t.buf, used := s.used + |bytes|)
    ensures |t.buf| == |s.buf| && Live(t) == Live(s) + bytes
  {
    var buf := s.buf[..s.used] + bytes + s.buf[s.used + |bytes|..];
    assert buf[..s.used + |bytes|] == s.buf[..s.used] + bytes;
    s.(buf := buf, used := s.used + |bytes|)
  }

  /** `eval_buf(pos)`: while a '\n' lies in `buf[pos..used]`, split the buffer
      just after it and go on at 0; with none, stop. */
  function EvalBuf(s: Splitter, pos: nat): (res: (Splitter, Result<()>))
    requires pos <= s.used <= |s.buf|
    ensures res.0 == s.(buf := res.0.buf, used := res.0.used, lines := res.0.lines)
    ensures res.0.used <= |res.0.buf| && res.0.used <= s.used
    ensures |s.lines| <= |res.0.lines| && res.0.lines[..|s.lines|] == s.lines
    ensures res.1.Err? ==> res.1.error == InvalidData
    decreases s.used, 1
  {
    match FirstNewline(s.buf[pos..s.used])
    case None => (s, Ok(()))
    case Some(i) => SplitAt(s, pos + i + 1)
  }

  /** One turn of the loop of `eval_buf`, for a '\n' just before `at`: the
      tail `buf[at..]` becomes the buffer, `used` drops by `at`, and the head
      is queued as a line.  A head that is not UTF-8 ends the loop with
      `InvalidData`, after it has left the buffer. */
  function SplitAt(s: Splitter, at: nat): (res: (Splitter, Result<()>))
    requires 0 < at <= s.used <= |s.buf|
    ensures res.0 == s.(buf := res.0.buf, used := res.0.used, lines := res.0.lines)
    ensures res.0.used <= |res.0.buf| && res.0.used < s.used
    ensures |s.lines| <= |res.0.lines| && res.0.lines[..|s.lines|] == s.lines
    ensures res.1.Err? ==> res.1.error == InvalidData
    decreases s.used, 0
  {
    var line := s.buf[..at];
    var t := s.(buf := s.buf[at..], used := s.used - at);
    match U8ArrayToString(line)
    case Err(e) => (t, Err(e))
    case Ok(text) =>
      var u := t.(lines := t.lines + [text]);
      var res := EvalBuf(u, 0);
      assert res.0.lines[..|s.lines|] == res.0.lines[..|u.lines|][..|s.lines|];
      res
  }

  /** The answer of the read decides the rest of `read_once`. */
  function Answer(h: Splitter, reply: ReadOutcome): (res: (Splitter, Result<bool>))
    requires h.used + (if reply.Data? then |reply.bytes| else 0) <= |h.buf|
  {
    match reply
    case Zero => Flush(h)
    case WouldBlock => (h, Ok(true))
    case Interrupted => (h, Ok(true))
    case Data(bytes) =>
      var (t, r) := EvalBuf(Fill(h, bytes), h.used);
      (t, if r.Err? then Err(r.error) else Ok(true))
    case OtherErr(e) => (h, Err(e))
  }

  /** End of stream: the live bytes, if any, become the last line as they are;
      `buf` is taken first, and a failed UTF-8 check returns before `used` is
      reset and before `at_eof` is set. */
  function Flush(h: Splitter): (res: (Splitter, Result<bool>))
  {
    if h.used > 0 then
      var lastline := if h.used <= |h.buf| then h.buf[..h.used] else h.buf;
      var taken := h.(buf := []);
      match U8ArrayToString(lastline)
      case Err(e) => (taken, Err(e))
      case Ok(text) => (taken.(lines := taken.lines + [text], used := 0, atEof := true), Ok(true))
    else (h.(atEof := true), Ok(true))
  }

  /** `read_once`: `Ok(false)` when already at end of stream, otherwise one
      read into at least BUFFER_SIZE free bytes and `Ok(true)` unless an error
      is returned. */
  function ReadOnce(s: Splitter): (res: (Splitter, Result<bool>))
  {
    if s.atEof then (s, Ok(false))
    else
      var g := Reserve(s);
      var (reply, rest) := Read(g.reader, |g.buf| - g.used);
      Answer(g.(reader := rest), reply)
  }

  /** Every `Ok(true)` brings the stream nearer its end, or reaches end of stream. */
  lemma ReadOnceProgress(s: Splitter)
    requires ReadOnce(s).1 == Ok(true)
    ensures !s.atEof
    ensures Weight(ReadOnce(s).0.reader) < Weight(s.reader)
            || (ReadOnce(s).0.reader == s.reader && ReadOnce(s).0.atEof)
  {
  }

  /** `read_available`: `read_once` until it returns `Ok(false)`; the first
      error is returned at once. */
  function ReadAvailable(s: Splitter): (res: (Splitter, Result<()>))
    decreases Weight(s.reader), if s.atEof then 0 else 1
  {
    var (t, r) := ReadOnce(s);
    match r
    case Err(e) => (t, Err(e))
    case Ok(more) =>
      if more then
        ReadOnceProgress(s);
        ReadAvailable(t)
      else (t, Ok(()))
  }
}
