/** Well-formed UTF-8, as the byte-sequence grammar of section 4 of RFC 3629
    defines it; the validity test `str::from_utf8` applies to each line. */
module Utf8 {

  newtype byte = x: int | 0 <= x < 256

  /** The record separator, '\n'. */
  const LF: byte := 10

  /** UTF8-tail = %x80-BF */
  predicate IsTail(b: byte) {
    0x80 <= b <= 0xBF
  }

  /** The number of bytes of the UTF8-char at the front of `s`, or 0 when `s`
      does not start with one.  The branches follow the alternatives of the
      UTF8-1, UTF8-2, UTF8-3 and UTF8-4 rules. */
  function CharWidth(s: seq<byte>): (n: nat)
    ensures n <= 4 && n <= |s|
    ensures n == 1 ==> s[0] < 0x80
    ensures n > 1 ==> s[0] >= 0xC2 && forall j | 1 <= j < n :: IsTail(s[j])
  {
    if |s| == 0 then 0
    else if s[0] <= 0x7F then 1
    else if 0xC2 <= s[0] <= 0xDF then
      if |s| >= 2 && IsTail(s[1]) then 2 else 0
    else if s[0] == 0xE0 then
      if |s| >= 3 && 0xA0 <= s[1] <= 0xBF && IsTail(s[2]) then 3 else 0
    else if 0xE1 <= s[0] <= 0xEC || 0xEE <= s[0] <= 0xEF then
      if |s| >= 3 && IsTail(s[1]) && IsTail(s[2]) then 3 else 0
    else if s[0] == 0xED then
      if |s| >= 3 && 0x80 <= s[1] <= 0x9F && IsTail(s[2]) then 3 else 0
    else if s[0] == 0xF0 then
      if |s| >= 4 && 0x90 <= s[1] <= 0xBF && IsTail(s[2]) && IsTail(s[3]) then 4 else 0
    else if 0xF1 <= s[0] <= 0xF3 then
      if |s| >= 4 && IsTail(s[1]) && IsTail(s[2]) && IsTail(s[3]) then 4 else 0
    else if s[0] == 0xF4 then
      if |s| >= 4 && 0x80 <= s[1] <= 0x8F && IsTail(s[2]) && IsTail(s[3]) then 4 else 0
    else 0
  }

  /** UTF8-octets = *( UTF8-char ) */
  predicate Valid(s: seq<byte>)
    decreases |s|
  {
    s == [] || (CharWidth(s) > 0 && Valid(s[CharWidth(s)..]))
  }

  /** The width of the first character depends only on its own bytes. */
  lemma CharWidthOfPrefix(s: seq<byte>, t: seq<byte>)
    requires CharWidth(s) > 0
    requires |t| >= CharWidth(s) && t[..CharWidth(s)] == s[..CharWidth(s)]
    ensures CharWidth(t) == CharWidth(s)
  {
    var n := CharWidth(s);
    assert forall j | 0 <= j < n :: t[j] == s[j] by {
      forall j | 0 <= j < n ensures t[j] == s[j] {
        assert t[..n][j] == s[..n][j];
      }
    }
  }

  /** A '\n' byte is a one-byte character of its own: cutting a well-formed
      sequence just after one leaves two well-formed halves. */
  lemma {:induction false} SplitAfterNewline(s: seq<byte>, k: nat)
    requires Valid(s) && k < |s| && s[k] == LF
    ensures Valid(s[..k + 1]) && Valid(s[k + 1..])
    decreases |s|
  {
    var n := CharWidth(s);
    assert n > 0;
    if k < n {
      assert n == 1 && k == 0;
      assert CharWidth(s[..1]) == 1;
      assert s[..1][1..] == [];
    } else {
      var rest := s[n..];
      assert rest[k - n] == LF;
      SplitAfterNewline(rest, k - n);
      CharWidthOfPrefix(s, s[..k + 1]);
      assert s[..k + 1][n..] == rest[..k - n + 1];
      assert rest[k - n + 1..] == s[k + 1..];
    }
  }

  /** ASCII text is well-formed UTF-8. */
  lemma {:induction false} AsciiValid(b: seq<byte>)
    requires forall k | 0 <= k < |b| :: b[k] < 0x80
    ensures Valid(b)
    decreases |b|
  {
    if b != [] {
      assert CharWidth(b) == 1;
      AsciiValid(b[1..]);
    }
  }
}
