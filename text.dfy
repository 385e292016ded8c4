/**
 * The string primitives the decoders and the response builder rely on, on
 * octet strings (each char stands for one octet of the wire): ASCII letter
 * case, trailing-whitespace trimming, splitting on a separator, the ": "
 * header delimiter, and the decimal form of a `usize`.
 */
module Text {
  import opened Wrappers

  // ---------------------------------------------------------------- case

  predicate IsUpper(c: char) { 'A' <= c <= 'Z' }

  /** `to_lowercase` on one octet: ASCII capitals map to small letters, everything else is kept. */
  function LowerChar(c: char): (r: char)
    ensures !IsUpper(r)
    ensures r == c <==> !IsUpper(c)
  {
    if IsUpper(c) then (c as int + 32) as char else c
  }

  /** No ASCII capital anywhere in s. */
  predicate IsLower(s: string)
  {
    forall i :: 0 <= i < |s| ==> !IsUpper(s[i])
  }

  /** `to_lowercase` on an octet string. */
  function Lower(s: string): (r: string)
    ensures |r| == |s|
    ensures forall i :: 0 <= i < |s| ==> r[i] == LowerChar(s[i])
    ensures IsLower(r)
  {
    if s == [] then [] else [LowerChar(s[0])] + Lower(s[1..])
  }

  /** Lower-casing changes nothing in a string that is already lower-case. */
  lemma LowerOfLower(s: string)
    requires IsLower(s)
    ensures Lower(s) == s
  {
  }

  // ----------------------------------------------------------- whitespace

  /** The ASCII octets Rust's `char::is_whitespace` accepts: tab, LF, VT, FF, CR and space. */
  predicate IsWhitespace(c: char) { c == ' ' || '\t' <= c <= '\r' }

  predicate EndsInWhitespace(s: string) { |s| > 0 && IsWhitespace(s[|s| - 1]) }

  /** `trim_end`: the longest prefix of s that does not end in whitespace. */
  function TrimEnd(s: string): (r: string)
    ensures |r| <= |s| && r == s[..|r|]
    ensures !EndsInWhitespace(r)
    ensures forall i :: |r| <= i < |s| ==> IsWhitespace(s[i])
    decreases |s|
  {
    if EndsInWhitespace(s) then TrimEnd(s[..|s| - 1]) else s
  }

  /** Trimming a string that does not end in whitespace, followed by whitespace only, gives it back. */
  lemma TrimEndSuffix(v: string, w: string)
    requires !EndsInWhitespace(v)
    requires forall i :: 0 <= i < |w| ==> IsWhitespace(w[i])
    ensures TrimEnd(v + w) == v
  {
    var s := v + w;
    var r := TrimEnd(s);
    assert |r| >= |v| by {
      if |v| > 0 {
        assert s[|v| - 1] == v[|v| - 1];
      }
    }
    forall i | |v| <= i < |s| ensures IsWhitespace(s[i]) {
      assert s[i] == w[i - |v|];
    }
    assert |r| <= |v| by {
      if |r| > 0 {
        assert r[|r| - 1] == s[|r| - 1];
      }
    }
    assert r == s[..|v|];
  }

  // ------------------------------------------------------------ splitting

  /** Glues the pieces back together with c between neighbours. */
  function Join(parts: seq<string>, c: char): string
    requires |parts| >= 1
  {
    if |parts| == 1 then parts[0] else parts[0] + [c] + Join(parts[1..], c)
  }

  /**
   * `str::split(c)`: the maximal c-free pieces of s, in order; the empty
   * string gives one empty piece and every c adds one piece.
   */
  function Split(s: string, c: char): (r: seq<string>)
    ensures |r| >= 1
    ensures forall i :: 0 <= i < |r| ==> c !in r[i]
    ensures Join(r, c) == s
    decreases |s|
  {
    if s == [] then [[]]
    else
      var rest := Split(s[1..], c);
      if s[0] == c then [[]] + rest
      else
        assert Join(rest, c) == s[1..];
        [[s[0]] + rest[0]] + rest[1..]
  }

  /** A c-free string is a single piece. */
  lemma {:induction false} SplitWhole(a: string, c: char)
    requires c !in a
    ensures Split(a, c) == [a]
  {
    if a != [] {
      SplitWhole(a[1..], c);
    }
  }

  /** A c-free string followed by c contributes exactly one piece. */
  lemma {:induction false} SplitAfter(a: string, c: char, b: string)
    requires c !in a
    ensures Split(a + [c] + b, c) == [a] + Split(b, c)
  {
    if a == [] {
      assert a + [c] + b == [c] + b;
      assert ([c] + b)[1..] == b;
    } else {
      SplitAfter(a[1..], c, b);
      assert (a + [c] + b)[1..] == a[1..] + [c] + b;
      assert [a[0]] + a[1..] == a;
    }
  }

  /** Split inverts Join: c-free pieces are recovered exactly from their join. */
  lemma {:induction false} SplitJoin(parts: seq<string>, c: char)
    requires |parts| >= 1
    requires forall i :: 0 <= i < |parts| ==> c !in parts[i]
    ensures Split(Join(parts, c), c) == parts
  {
    if |parts| == 1 {
      SplitWhole(parts[0], c);
    } else {
      SplitJoin(parts[1..], c);
      SplitAfter(parts[0], c, Join(parts[1..], c));
      assert [parts[0]] + parts[1..] == parts;
    }
  }

  // ---------------------------------------------------- the ": " delimiter

  /** The header delimiter ": " starts at index i of s. */
  predicate SepAt(s: string, i: int)
  {
    0 <= i && i + 1 < |s| && s[i] == ':' && s[i + 1] == ' '
  }

  /** `str::contains(": ")`. */
  predicate HasSep(s: string)
  {
    exists i :: 0 <= i < |s| && SepAt(s, i)
  }

  /** The first occurrence of ": " in s at or after `from`, when there is one. */
  function FindSepFrom(s: string, from: nat): (r: Option<nat>)
    requires from <= |s|
    ensures r.Some? ==> from <= r.value && SepAt(s, r.value)
    ensures r.Some? ==> forall j :: from <= j < r.value ==> !SepAt(s, j)
    ensures r.None? ==> forall j :: from <= j ==> !SepAt(s, j)
    decreases |s| - from
  {
    if from + 1 >= |s| then None
    else if SepAt(s, from) then Some(from)
    else FindSepFrom(s, from + 1)
  }

  /** The index of the first ": " in s, or None when s has none. */
  function FindSep(s: string): (r: Option<nat>)
    ensures r.Some? ==> SepAt(s, r.value) && forall j :: 0 <= j < r.value ==> !SepAt(s, j)
    ensures r.None? <==> !HasSep(s)
  {
    FindSepFrom(s, 0)
  }

  /** The first piece of `str::split(": ")`: everything before the first ": ", or all of s. */
  function FirstField(s: string): (r: string)
    ensures |r| <= |s| && r == s[..|r|]
    ensures !HasSep(r)
    ensures |r| < |s| ==> SepAt(s, |r|)
    ensures !HasSep(s) ==> r == s
  {
    match FindSep(s)
    case None => s
    case Some(i) =>
      assert forall j :: SepAt(s[..i], j) ==> SepAt(s, j);
      s[..i]
  }

  /** A prefix of a string without ": " has none either. */
  lemma NoSepPrefix(s: string, n: nat)
    requires n <= |s| && !HasSep(s)
    ensures !HasSep(s[..n])
  {
    forall j | SepAt(s[..n], j) ensures SepAt(s, j) { }
  }

  /** Lower-casing neither creates nor destroys a ": ". */
  lemma LowerKeepsSep(s: string)
    ensures HasSep(Lower(s)) <==> HasSep(s)
  {
    var l := Lower(s);
    forall j | SepAt(l, j) ensures SepAt(s, j) { }
    forall j | SepAt(s, j) ensures SepAt(l, j) { }
  }

  // ------------------------------------------------------------- decimals

  /** `usize::MAX`, with `usize` taken as 64 bits wide. */
  const UsizeMax: nat := 0xFFFF_FFFF_FFFF_FFFF

  predicate IsDigit(c: char) { '0' <= c <= '9' }

  predicate AllDigits(s: string)
  {
    forall i :: 0 <= i < |s| ==> IsDigit(s[i])
  }

  function DigitChar(d: nat): (c: char)
    requires d < 10
    ensures IsDigit(c)
  {
    ('0' as int + d) as char
  }

  /** The number a string of decimal digits denotes, most significant first. */
  function DigitsValue(s: string): nat
    requires AllDigits(s)
    decreases |s|
  {
    if s == [] then 0 else DigitsValue(s[..|s| - 1]) * 10 + (s[|s| - 1] as int - '0' as int)
  }

  /** `usize::to_string`: the shortest decimal numeral of n. */
  function Decimal(n: nat): (r: string)
    ensures |r| >= 1 && AllDigits(r)
    ensures r[0] == '0' ==> n == 0 && r == "0"
    decreases n
  {
    if n < 10 then [DigitChar(n)] else Decimal(n / 10) + [DigitChar(n % 10)]
  }

  /**
   * `str::parse::<usize>`: an optional '+', then one or more decimal digits
   * whose value fits in a usize; anything else (empty, a sign alone, a '-',
   * spaces, letters, overflow) is None.
   */
  function ParseUsize(s: string): (r: Option<nat>)
    ensures r.Some? ==> r.value <= UsizeMax
    ensures r.Some? ==>
      || (|s| > 0 && AllDigits(s) && DigitsValue(s) == r.value)
      || (|s| > 1 && s[0] == '+' && AllDigits(s[1..]) && DigitsValue(s[1..]) == r.value)
    ensures |s| > 0 && AllDigits(s) && DigitsValue(s) <= UsizeMax ==> r == Some(DigitsValue(s))
    ensures |s| > 1 && s[0] == '+' && AllDigits(s[1..]) && DigitsValue(s[1..]) <= UsizeMax ==>
      r == Some(DigitsValue(s[1..]))
  {
    var digits := if |s| > 0 && s[0] == '+' then s[1..] else s;
    if digits == [] || !AllDigits(digits) then None
    else
      var v := DigitsValue(digits);
      if v <= UsizeMax then Some(v) else None
  }

  /** The digits of Decimal(n) denote n. */
  lemma {:induction false} DecimalValue(n: nat)
    ensures DigitsValue(Decimal(n)) == n
    decreases n
  {
    if n >= 10 {
      DecimalValue(n / 10);
      var d := Decimal(n);
      assert d[..|d| - 1] == Decimal(n / 10);
    }
  }

  /** Parsing a rendered usize gives the number back. */
  lemma ParseDecimal(n: nat)
    requires n <= UsizeMax
    ensures ParseUsize(Decimal(n)) == Some(n)
  {
    DecimalValue(n);
  }

  /** Letter case never matters to ParseUsize: a letter fails it either way. */
  lemma ParseUsizeIgnoresCase(s: string)
    ensures ParseUsize(Lower(s)) == ParseUsize(s)
  {
    if exists i :: 0 <= i < |s| && IsUpper(s[i]) {
      var i :| 0 <= i < |s| && IsUpper(s[i]);
      var l := Lower(s);
      assert !IsDigit(s[i]) && !IsDigit(l[i]) && s[i] != '+' && l[i] != '+';
      if i == 0 {
        assert !AllDigits(s) && !AllDigits(l);
      } else {
        assert !AllDigits(s[1..]) by { assert s[1..][i - 1] == s[i]; }
        assert !AllDigits(l[1..]) by { assert l[1..][i - 1] == l[i]; }
        assert !AllDigits(s) && !AllDigits(l);
      }
    } else {
      LowerOfLower(s);
    }
  }
}
