/** Lines of a byte stream: the newline search the reader uses, and a
    reference splitting of a whole byte sequence into its lines, against
    which the incremental reader is proved. */
module Lines {
  import opened Io
  import opened Utf8

  /** `memchr(b'\n', s)`: the index of the first '\n' in `s`.  What that
      means is stated apart, by `FirstNewlineSpec`, so that the quantified
      facts come into a proof only where they are asked for. */
  function FirstNewline(s: seq<byte>): (r: Option<nat>)
    ensures r.Some? ==> r.value < |s| && s[r.value] == LF
  {
    if s == [] then None
    else if s[0] == LF then Some(0)
    else
      match FirstNewline(s[1..])
      case None => None
      case Some(i) => Some(i + 1)
  }

  /** The index found holds a '\n' with none before it, and nothing is found
      exactly when `s` holds no '\n'. */
  lemma {:induction false} FirstNewlineSpec(s: seq<byte>)
    ensures FirstNewline(s).Some? ==> LF !in s[..FirstNewline(s).value]
    ensures FirstNewline(s).None? <==> LF !in s
    decreases |s|
  {
    if s != [] && s[0] != LF {
      FirstNewlineSpec(s[1..]);
      assert s == [s[0]] + s[1..];
      match FirstNewline(s[1..])
      case None =>
      case Some(i) =>
        assert s[..i + 1] == [s[0]] + s[1..][..i];
    }
  }

  /** A '\n' at index `i` with none before it is the one `FirstNewline` finds. */
  lemma FirstNewlineAt(s: seq<byte>, i: nat)
    requires i < |s| && s[i] == LF && LF !in s[..i]
    ensures FirstNewline(s) == Some(i)
  {
    FirstNewlineSpec(s);
    assert s[i] in s;
    var j := FirstNewline(s).value;
    assert forall k | 0 <= k < i :: s[k] != LF by {
      forall k | 0 <= k < i ensures s[k] != LF { assert s[..i][k] == s[k]; }
    }
    assert forall k | 0 <= k < j :: s[k] != LF by {
      forall k | 0 <= k < j ensures s[k] != LF { assert s[..j][k] == s[k]; }
    }
  }

  /** Searching past a prefix without '\n' finds the same '\n', shifted. */
  lemma FirstNewlineAfter(w: seq<byte>, a: seq<byte>, b: seq<byte>)
    requires w == a + b && LF !in a
    ensures FirstNewline(b).None? ==> FirstNewline(w).None?
    ensures FirstNewline(b).Some? ==> FirstNewline(w) == Some(|a| + FirstNewline(b).value)
  {
    if FirstNewline(b).None? {
      FirstNewlineSpec(b);
      FirstNewlineSpec(w);
      assert forall k | 0 <= k < |w| :: w[k] != LF by {
        forall k | 0 <= k < |w| ensures w[k] != LF {
          if k < |a| { assert w[k] == a[k]; } else { assert w[k] == b[k - |a|]; }
        }
      }
    } else {
      var i := FirstNewline(b).value;
      FirstNewlineSpec(b);
      assert w[..|a| + i] == a + b[..i];
      FirstNewlineAt(w, |a| + i);
    }
  }

  /** A '\n' found within `a` is also the first one of `a + b`. */
  lemma FirstNewlineBefore(a: seq<byte>, b: seq<byte>)
    requires FirstNewline(a).Some?
    ensures FirstNewline(a + b) == FirstNewline(a)
  {
    var i := FirstNewline(a).value;
    FirstNewlineSpec(a);
    assert (a + b)[..i] == a[..i];
    FirstNewlineAt(a + b, i);
  }

  /** A complete line: it ends in '\n' and holds no other '\n'. */
  predicate IsLine(x: seq<byte>) {
    |x| > 0 && x[|x| - 1] == LF && LF !in x[..|x| - 1]
  }

  /** The bytes of a list of lines, joined. */
  function Concat(ls: seq<seq<byte>>): seq<byte> {
    if ls == [] then [] else ls[0] + Concat(ls[1..])
  }

  lemma {:induction false} ConcatAppend(a: seq<seq<byte>>, b: seq<seq<byte>>)
    ensures Concat(a + b) == Concat(a) + Concat(b)
  {
    if a == [] {
      assert a + b == b;
    } else {
      assert (a + b)[1..] == a[1..] + b;
      ConcatAppend(a[1..], b);
    }
  }

  /** The '\n'-terminated lines at the front of `b`, each with its '\n'. */
  function CompleteLines(b: seq<byte>): seq<seq<byte>>
    decreases |b|
  {
    match FirstNewline(b)
    case None => []
    case Some(i) => [b[..i + 1]] + CompleteLines(b[i + 1..])
  }

  /** What follows the last '\n' of `b` (all of `b` when it has none). */
  function Remainder(b: seq<byte>): seq<byte>
    decreases |b|
  {
    match FirstNewline(b)
    case None => b
    case Some(i) => Remainder(b[i + 1..])
  }

  /** Every line split off is a complete line. */
  lemma {:induction false} CompleteLinesAreLines(b: seq<byte>)
    ensures forall j | 0 <= j < |CompleteLines(b)| :: IsLine(CompleteLines(b)[j])
    decreases |b|
  {
    match FirstNewline(b)
    case None =>
    case Some(i) =>
      FirstNewlineSpec(b);
      var line, rest := b[..i + 1], b[i + 1..];
      assert line[..i] == b[..i];
      assert IsLine(line);
      CompleteLinesAreLines(rest);
      var ls := CompleteLines(b);
      assert ls == [line] + CompleteLines(rest);
      forall j | 0 <= j < |ls| ensures IsLine(ls[j]) {
        if j > 0 { assert ls[j] == CompleteLines(rest)[j - 1]; }
      }
  }

  /** What follows the last '\n' holds no '\n'. */
  lemma {:induction false} RemainderNoNewline(b: seq<byte>)
    ensures LF !in Remainder(b)
    decreases |b|
  {
    match FirstNewline(b)
    case None => FirstNewlineSpec(b);
    case Some(i) => RemainderNoNewline(b[i + 1..]);
  }

  /** The reference splitting: every complete line, then the unterminated
      fragment at the end, if there is one. */
  function SplitLines(b: seq<byte>): seq<seq<byte>>
    decreases |b|
  {
    match FirstNewline(b)
    case None => if b == [] then [] else [b]
    case Some(i) => [b[..i + 1]] + SplitLines(b[i + 1..])
  }

  /** One step of the splitting, at the first '\n'. */
  lemma {:induction false} CompleteLinesAt(b: seq<byte>, i: nat)
    requires i < |b| && b[i] == LF && LF !in b[..i]
    ensures CompleteLines(b) == [b[..i + 1]] + CompleteLines(b[i + 1..])
    ensures Remainder(b) == Remainder(b[i + 1..])
  {
    FirstNewlineAt(b, i);
  }

  /** A complete line in front is split off as it is. */
  lemma CompleteLinesCons(line: seq<byte>, rest: seq<byte>)
    requires IsLine(line)
    ensures CompleteLines(line + rest) == [line] + CompleteLines(rest)
    ensures Remainder(line + rest) == Remainder(rest)
  {
    var b, i := line + rest, |line| - 1;
    assert b[..i] == line[..i];
    CompleteLinesAt(b, i);
    assert b[..i + 1] == line && b[i + 1..] == rest;
  }

  /** The splitting of nothing. */
  lemma NothingLeft()
    ensures CompleteLines([]) == [] && Remainder([]) == []
  {
  }

  /** The complete lines and the remainder give back `b`, byte for byte. */
  lemma {:induction false} CompleteLinesRoundTrip(b: seq<byte>)
    ensures Concat(CompleteLines(b)) + Remainder(b) == b
    decreases |b|
  {
    match FirstNewline(b)
    case None =>
    case Some(i) =>
      var line, rest := b[..i + 1], b[i + 1..];
      var ls := CompleteLines(rest);
      calc {
        Concat(CompleteLines(b)) + Remainder(b);
        Concat([line] + ls) + Remainder(rest);
        { ConcatCons(line, ls); }
        (line + Concat(ls)) + Remainder(rest);
        { AppendAssoc(line, Concat(ls), Remainder(rest)); }
        line + (Concat(ls) + Remainder(rest));
        { CompleteLinesRoundTrip(rest); }
        line + rest;
        { assert b == line + rest; }
        b;
      }
  }

  /** Joining is associative; stated once, so that proofs need not rebuild
      it element by element. */
  lemma AppendAssoc<T>(a: seq<T>, b: seq<T>, c: seq<T>)
    ensures (a + b) + c == a + (b + c)
  {
  }

  /** The bytes of a line in front of lines. */
  lemma ConcatCons(line: seq<byte>, ls: seq<seq<byte>>)
    ensures Concat([line] + ls) == line + Concat(ls)
  {
    assert ([line] + ls)[1..] == ls;
  }

  /** The complete lines of `x` come first among the lines of `x + t`,
      whatever `t` is: splitting can proceed as bytes arrive. */
  lemma {:induction false} SplitLinesAppend(x: seq<byte>, t: seq<byte>)
    ensures SplitLines(x + t) == CompleteLines(x) + SplitLines(Remainder(x) + t)
    decreases |x|
  {
    match FirstNewline(x)
    case None =>
    case Some(i) =>
      var line, rest := x[..i + 1], x[i + 1..];
      FirstNewlineBefore(x, t);
      AppendAt(x, t, i);
      assert SplitLines(x + t) == [line] + SplitLines(rest + t);
      assert CompleteLines(x) == [line] + CompleteLines(rest);
      assert Remainder(x) == Remainder(rest);
      SplitLinesAppend(rest, t);
      AppendAssoc([line], CompleteLines(rest), SplitLines(Remainder(rest) + t));
  }

  /** The shape of the reference splitting: the lines join back to the input,
      none is empty, every one but the last is a complete line, and the last
      is complete or holds no '\n' at all. */
  lemma SplitLinesShape(b: seq<byte>)
    ensures Concat(SplitLines(b)) == b
    ensures forall j | 0 <= j < |SplitLines(b)| :: SplitLines(b)[j] != []
    ensures forall j | 0 <= j < |SplitLines(b)| - 1 :: IsLine(SplitLines(b)[j])
    ensures SplitLines(b) != [] ==>
              var last := SplitLines(b)[|SplitLines(b)| - 1];
              IsLine(last) || LF !in last
  {
    SplitLinesAppend(b, []);
    assert b + [] == b;
    CompleteLinesAreLines(b);
    RemainderNoNewline(b);
    var c, r := CompleteLines(b), Remainder(b);
    assert r + [] == r;
    var tail := SplitLines(r);
    assert tail == if r == [] then [] else [r];
    CompleteLinesRoundTrip(b);
    ConcatAppend(c, tail);
    assert Concat(tail) == r by {
      if r != [] { assert Concat(tail) == r + Concat([]); }
    }
  }

  /** `b` has one complete line per '\n' it holds... */
  lemma {:induction false} CompleteLinesCount(b: seq<byte>)
    ensures |CompleteLines(b)| == multiset(b)[LF]
    decreases |b|
  {
    match FirstNewline(b)
    case None =>
      FirstNewlineSpec(b);
    case Some(i) =>
      FirstNewlineSpec(b);
      NewlinesAfterFirst(b, i);
      CompleteLinesCount(b[i + 1..]);
  }

  /** The first '\n' is one of the '\n' of `b`; the others come after it. */
  lemma NewlinesAfterFirst(b: seq<byte>, i: nat)
    requires i < |b| && b[i] == LF && LF !in b[..i]
    ensures multiset(b)[LF] == 1 + multiset(b[i + 1..])[LF]
  {
    var head, rest := b[..i], b[i + 1..];
    assert b == head + [LF] + rest;
    assert multiset(head)[LF] == 0;
    assert multiset(b) == multiset(head) + multiset{LF} + multiset(rest);
  }

  /** ...and a remainder exactly when it does not end in '\n'. */
  lemma {:induction false} RemainderEmpty(b: seq<byte>)
    ensures Remainder(b) == [] <==> b == [] || b[|b| - 1] == LF
    decreases |b|
  {
    match FirstNewline(b)
    case None =>
      FirstNewlineSpec(b);
      assert b != [] ==> b[|b| - 1] in b;
    case Some(i) =>
      RemainderEmpty(b[i + 1..]);
  }

  /** Splitting a text with K '\n' gives K lines, or K + 1 when a fragment
      without '\n' ends it. */
  lemma SplitLinesCount(b: seq<byte>)
    ensures |SplitLines(b)| == multiset(b)[LF] + (if b == [] || b[|b| - 1] == LF then 0 else 1)
  {
    SplitLinesAppend(b, []);
    assert b + [] == b;
    var r := Remainder(b);
    assert r + [] == r;
    RemainderNoNewline(b);
    FirstNewlineSpec(r);
    assert |SplitLines(r)| == if r == [] then 0 else 1;
    CompleteLinesCount(b);
    RemainderEmpty(b);
  }

  /** In well-formed UTF-8, every complete line is well-formed on its own,
      and so is what follows the last one. */
  lemma {:induction false} ValidLines(x: seq<byte>, t: seq<byte>)
    requires Utf8.Valid(x + t)
    ensures forall j | 0 <= j < |CompleteLines(x)| :: Utf8.Valid(CompleteLines(x)[j])
    ensures Utf8.Valid(Remainder(x) + t)
    decreases |x|
  {
    match FirstNewline(x)
    case None =>
    case Some(i) =>
      var line, rest := x[..i + 1], x[i + 1..];
      AppendAt(x, t, i);
      SplitAfterNewline(x + t, i);
      ValidLines(rest, t);
      AllValidCons(line, CompleteLines(rest));
  }

  /** Cutting `x + t` inside `x`. */
  lemma AppendAt(x: seq<byte>, t: seq<byte>, i: nat)
    requires i < |x|
    ensures (x + t)[i] == x[i]
    ensures (x + t)[..i + 1] == x[..i + 1] && (x + t)[i + 1..] == x[i + 1..] + t
  {
  }

  /** A well-formed line in front of well-formed lines. */
  lemma AllValidCons(line: seq<byte>, ls: seq<seq<byte>>)
    requires Utf8.Valid(line)
    requires forall j | 0 <= j < |ls| :: Utf8.Valid(ls[j])
    ensures forall j | 0 <= j < |[line] + ls| :: Utf8.Valid(([line] + ls)[j])
  {
    forall j | 0 <= j < |[line] + ls| ensures Utf8.Valid(([line] + ls)[j]) {
      if j > 0 { assert ([line] + ls)[j] == ls[j - 1]; }
    }
  }
}
