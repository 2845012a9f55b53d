/** `LineReaderNonBlock`: the reader the crate exports, with the fields of
    the struct and the methods of its `impl`, each proved to move exactly as
    the machine of module `Machine` says. */
module NonBlockReader {
  import opened Io
  import opened Utf8
  import opened Lines
  import Machine
  import opened Properties

  class LineReaderNonBlock {
    var reader: Machine.Script
    var atEof: bool
    var buf: seq<byte>
    var used: nat
    var lines: seq<Machine.Text>

    /** The fields, as one value of the machine. */
    function State(): Machine.Splitter
      reads this
    {
      Machine.Splitter(reader, atEof, buf, used, lines)
    }

    constructor Init(reader: Machine.Script)
      ensures State() == Machine.Initial(reader)
    {
      this.reader := reader;
      atEof := false;
      buf := [];
      used := 0;
      lines := [];
    }

    /** `new`: switching the descriptor to non-blocking mode may fail, and its
        outcome is given as `disabled`; on failure no reader is made. */
    static method New(reader: Machine.Script, disabled: Result<()>) returns (r: Result<LineReaderNonBlock>)
      ensures r.Ok? <==> disabled.Ok?
      ensures r.Err? ==> r.error == disabled.error
      ensures r.Ok? ==> fresh(r.value) && r.value.State() == Machine.Initial(reader)
    {
      if disabled.Err? {
        return Err(disabled.error);
      }
      var lr := new LineReaderNonBlock.Init(reader);
      return Ok(lr);
    }

    /** `eof`: whether end of stream has been reached. */
    method Eof() returns (b: bool)
      ensures b == atEof
      ensures b ==> Machine.ReadOnce(State()) == (State(), Ok(false))
      ensures b ==> Machine.ReadAvailable(State()) == (State(), Ok(()))
    {
      b := atEof;
    }

    /** `eval_buf(pos)`, on the fields. */
    method EvalBuf(pos0: nat) returns (r: Result<()>)
      requires pos0 <= used <= |buf|
      modifies this
      ensures (State(), r) == Machine.EvalBuf(old(State()), pos0)
    {
      var pos: nat := pos0;
      ghost var goal := Machine.EvalBuf(State(), pos0);
      while true
        invariant ScanEndsAs(State(), pos, goal)
        decreases used
      {
        var found := FirstNewline(buf[pos..used]);
        if found.None? {
          ScanEndsStop(State(), pos, goal);
          return Ok(());
        }
        ScanEndsTurn(State(), pos, found.value, goal);
        r := SplitLine(pos + found.value + 1);
        if r.Err? {
          return;
        }
        pos := 0;
      }
    }

    /** One turn of the loop of `eval_buf`, for a '\n' just before `at`:
        the line up to it leaves the buffer, and is queued when it is UTF-8. */
    method SplitLine(at: nat) returns (r: Result<()>)
      requires 0 < at <= used <= |buf|
      modifies this
      ensures used < old(used) && used <= |buf|
      ensures r.Err? ==> (State(), r) == Machine.SplitAt(old(State()), at)
      ensures r.Ok? ==> Machine.EvalBuf(State(), 0) == Machine.SplitAt(old(State()), at)
    {
      ghost var before := State();
      var line := SplitOff(at);
      var text := Machine.U8ArrayToString(line);
      if text.Err? {
        SplitAtInvalid(before, at);
        return Err(text.error);
      }
      SplitAtValid(before, at);
      lines := lines + [text.value];
      return Ok(());
    }

    /** `split_off` and `swap`: the bytes up to `at` come out as the line
        and the rest is the buffer again, `used` dropping by `at`. */
    method SplitOff(at: nat) returns (line: seq<byte>)
      requires at <= used <= |buf|
      modifies this
      ensures line == old(buf)[..at]
      ensures State() == old(State()).(buf := old(buf)[at..], used := old(used) - at)
    {
      var tail := buf[at..];    // split_off: the tail goes to `tail`
      buf := buf[..at];
      used := used - at;
      buf, tail := tail, buf;   // swap: the tail is the buffer again
      line := tail;
    }

    /** `read_once`, on the fields. */
    method ReadOnce() returns (r: Result<bool>)
      modifies this
      ensures (State(), r) == Machine.ReadOnce(old(State()))
    {
      if atEof {
        return Ok(false);
      }
      ReadOnceReads(State());
      Grow();
      var (reply, rest) := Machine.Read(reader, |buf| - used);
      reader := rest;
      r := Act(reply);
    }

    /** The resize at the start of `read_once`: at least BUFFER_SIZE bytes
        past `used`, the new ones zero. */
    method Grow()
      modifies this
      ensures State() == Machine.Reserve(old(State()))
    {
      if |buf| < used + Machine.BUFFER_SIZE {
        buf := buf + Machine.Zeros(used + Machine.BUFFER_SIZE - |buf|);
      }
    }

    /** The `match` of `read_once` on the answer of the read. */
    method Act(reply: Machine.ReadOutcome) returns (r: Result<bool>)
      requires used + (if reply.Data? then |reply.bytes| else 0) <= |buf|
      modifies this
      ensures (State(), r) == Machine.Answer(old(State()), reply)
    {
      match reply {
        case Zero =>
          r := Flush();
        case WouldBlock =>
          r := Ok(true);
        case Interrupted =>
          r := Ok(true);
        case Data(bytes) =>
          var oldused := used;
          buf := buf[..used] + bytes + buf[used + |bytes|..];
          used := used + |bytes|;
          assert State() == Machine.Fill(old(State()), bytes);
          var e := EvalBuf(oldused);
          r := if e.Err? then Err(e.error) else Ok(true);
        case OtherErr(err) =>
          r := Err(err);
      }
    }

    /** End of stream in `read_once`: the live bytes, if any, are the last
        line. */
    method Flush() returns (r: Result<bool>)
      modifies this
      ensures (State(), r) == Machine.Flush(old(State()))
    {
      if used > 0 {
        var lastline := buf;    // mem::take
        buf := [];
        if used <= |lastline| {
          lastline := lastline[..used];
        }
        var text := Machine.U8ArrayToString(lastline);
        if text.Err? {
          return Err(text.error);
        }
        lines := lines + [text.value];
        used := 0;
      }
      atEof := true;
      return Ok(true);
    }

    /** `read_available`: `read_once` until it returns `Ok(false)`, the first
        error returned at once. */
    method ReadAvailable() returns (r: Result<()>)
      modifies this
      ensures (State(), r) == Machine.ReadAvailable(old(State()))
    {
      while true
        invariant Machine.ReadAvailable(State()) == Machine.ReadAvailable(old(State()))
        decreases Machine.Weight(reader), if atEof then 0 else 1
      {
        ghost var before := State();
        var more := ReadOnce();
        if more.Err? {
          return Err(more.error);
        }
        if !more.value {
          return Ok(());
        }
        Machine.ReadOnceProgress(before);
      }
    }

    /** `lines_get`: the queued lines, in the order they were queued; the
        queue is left empty. */
    method LinesGet() returns (ls: seq<Machine.Text>)
      modifies this
      ensures ls == old(lines) && State() == old(State()).(lines := [])
    {
      ls := lines;
      lines := [];
    }
  }
}
