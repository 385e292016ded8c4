/**
 * Well-formed UTF-8 over octet strings, following the table of well-formed
 * byte sequences in section 3.9 of the Unicode Standard. `read_line` and
 * `String::from_utf8` fail on octets that are not well formed.
 */
module Utf8 {

  predicate InRange(c: char, lo: int, hi: int) { lo <= c as int <= hi }

  predicate IsContinuation(c: char) { InRange(c, 0x80, 0xBF) }

  /**
   * The length of the well-formed sequence that starts s: 1 for ASCII,
   * 2 to 4 for a lead octet with the continuation octets its row of the
   * table allows, and 0 when s does not start with a well-formed sequence.
   */
  function SequenceLength(s: string): (n: nat)
    requires |s| > 0
    ensures n <= |s| && n <= 4
    ensures n > 0 ==> forall k :: 1 <= k < n ==> IsContinuation(s[k])
  {
    var b := s[0] as int;
    if b <= 0x7F then 1
    else if 0xC2 <= b <= 0xDF then
      if |s| >= 2 && IsContinuation(s[1]) then 2 else 0
    else if 0xE0 <= b <= 0xEF then
      var lo := if b == 0xE0 then 0xA0 else 0x80;
      var hi := if b == 0xED then 0x9F else 0xBF;
      if |s| >= 3 && InRange(s[1], lo, hi) && IsContinuation(s[2]) then 3 else 0
    else if 0xF0 <= b <= 0xF4 then
      var lo := if b == 0xF0 then 0x90 else 0x80;
      var hi := if b == 0xF4 then 0x8F else 0xBF;
      if |s| >= 4 && InRange(s[1], lo, hi) && IsContinuation(s[2]) && IsContinuation(s[3]) then 4 else 0
    else 0
  }

  /** s is a concatenation of well-formed UTF-8 sequences. */
  predicate Valid(s: string)
    decreases |s|
  {
    s == [] || (SequenceLength(s) > 0 && Valid(s[SequenceLength(s)..]))
  }

  /** Octets below 0x80 are always well formed. */
  lemma {:induction false} AsciiValid(s: string)
    requires forall i :: 0 <= i < |s| ==> s[i] as int < 0x80
    ensures Valid(s)
    decreases |s|
  {
    if s != [] {
      AsciiValid(s[1..]);
    }
  }

  /** A sequence that is well formed stays so, and keeps its length, whatever follows it. */
  lemma SequenceLengthExtends(s: string, t: string)
    requires |s| > 0 && SequenceLength(s) > 0
    ensures SequenceLength(s + t) == SequenceLength(s)
  {
    var u := s + t;
    assert forall k :: 0 <= k < |s| ==> u[k] == s[k];
  }

  /** Well-formed text concatenated with well-formed text is well formed. */
  lemma {:induction false} ConcatValid(a: string, b: string)
    requires Valid(a) && Valid(b)
    ensures Valid(a + b)
    decreases |a|
  {
    if a == [] {
      assert a + b == b;
    } else {
      var n := SequenceLength(a);
      SequenceLengthExtends(a, b);
      ConcatValid(a[n..], b);
      assert (a + b)[n..] == a[n..] + b;
    }
  }
}
