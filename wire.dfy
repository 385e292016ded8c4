/**
 * What both request decoders share: the input stream as an octet string
 * read through a cursor, `read_line`, the header-line format and the header
 * loop, the insertion of header entries into a map, and the
 * `content-length` body read.
 */
module Wire {
  import opened Wrappers
  import opened Text
  import Utf8
  import opened HttpTypes

  /** The outcomes where the source's decoders panic instead of returning. */
  datatype DecodeFailure =
    | Rejected(error: HttpError)  // a request-line token is unknown or missing
    | InvalidUtf8                 // a line or the body is not well-formed UTF-8
    | InvalidLength               // content-length is not a usize numeral
    | UnexpectedEof               // the stream ends before content-length octets

  // ------------------------------------------------------------- read_line

  /**
   * `read_line` at cursor pos: the line runs up to and including the first
   * '\n', or to the end of the stream; it is empty only at the end.
   */
  function LineEnd(s: string, pos: nat): (e: nat)
    requires pos <= |s|
    ensures pos <= e <= |s|
    ensures e == pos <==> pos == |s|
    ensures forall i :: pos <= i < e - 1 ==> s[i] != '\n'
    ensures e < |s| ==> s[e - 1] == '\n'
    decreases |s| - pos
  {
    if pos == |s| then pos
    else if s[pos] == '\n' then pos + 1
    else LineEnd(s, pos + 1)
  }

  /** A complete line: it ends in '\n' and holds no other '\n'. */
  predicate IsLine(l: string)
  {
    |l| > 0 && l[|l| - 1] == '\n' && '\n' !in l[..|l| - 1]
  }

  /** The octets of s from cursor pos on start with t. */
  predicate At(s: string, pos: nat, t: string)
  {
    pos + |t| <= |s| && s[pos..pos + |t|] == t
  }

  /** At a cursor where t + u stands, t stands, and u stands right after it. */
  lemma AtSplit(s: string, pos: nat, t: string, u: string)
    requires At(s, pos, t + u)
    ensures At(s, pos, t) && At(s, pos + |t|, u)
  {
    assert s[pos..pos + |t|] == s[pos..pos + |t| + |u|][..|t|];
    assert s[pos + |t|..pos + |t| + |u|] == s[pos..pos + |t| + |u|][|t|..];
  }

  /** In a + t + rest, t stands right after a. */
  lemma AtAfter(a: string, t: string, rest: string)
    ensures At(a + t + rest, |a|, t)
  {
    assert (a + t + rest)[|a|..|a| + |t|] == t;
  }

  /** read_line returns exactly the complete line that stands at the cursor. */
  lemma LineEndAt(s: string, pos: nat, l: string)
    requires At(s, pos, l) && IsLine(l)
    ensures LineEnd(s, pos) == pos + |l|
  {
    var n := pos + |l|;
    assert s[n - 1] == l[|l| - 1];
    forall i | pos <= i < n - 1 ensures s[i] != '\n' {
      assert s[i] == l[i - pos] == l[..|l| - 1][i - pos];
    }
  }

  // ---------------------------------------------------------- header lines

  datatype Header = Header(name: string, value: string)

  /** The text of one header line, as the response writes it: "name: value\r\n". */
  function HeaderText(name: string, value: string): string
  {
    name + ": " + value + "\r\n"
  }

  /**
   * One line of the header loop. A line without ": " ends the headers
   * (None). Otherwise the name is the text before the first ": ",
   * lower-cased, and the value the text between the first and the second
   * ": " (or the end of the line) with trailing whitespace trimmed.
   */
  function ParseHeaderLine(line: string): (r: Option<Header>)
    ensures r.None? <==> !HasSep(line)
    ensures r.Some? ==> IsLower(r.value.name) && !HasSep(r.value.name)
    ensures r.Some? ==> !HasSep(r.value.value) && !EndsInWhitespace(r.value.value)
  {
    match FindSep(line)
    case None => None
    case Some(i) =>
      var name := line[..i];
      var value := TrimEnd(FirstField(line[i + 2..]));
      assert !HasSep(name) by {
        forall j | 0 <= j < |name| && SepAt(name, j) ensures SepAt(line, j) { }
      }
      LowerKeepsSep(name);
      NoSepPrefix(FirstField(line[i + 2..]), |value|);
      Some(Header(Lower(name), value))
  }

  /** A header name or value that holds no ": " and no '\n'. */
  predicate CleanField(f: string)
  {
    !HasSep(f) && '\n' !in f
  }

  /** In "name: value\r\n" the first ": " is the one after the name. */
  lemma HeaderTextSep(name: string, value: string)
    requires !HasSep(name)
    ensures FindSep(HeaderText(name, value)) == Some(|name|)
  {
    var line := HeaderText(name, value);
    assert SepAt(line, |name|);
    forall j | 0 <= j < |name| ensures !SepAt(line, j) {
      if j + 1 < |name| {
        assert !SepAt(name, j);
      }
    }
  }

  /** A value without ": " followed by the line break is a first field of its own. */
  lemma ValueField(value: string)
    requires !HasSep(value)
    ensures FirstField(value + "\r\n") == value + "\r\n"
  {
    var rest := value + "\r\n";
    forall j | 0 <= j < |rest| ensures !SepAt(rest, j) {
      if j + 1 < |value| {
        assert !SepAt(value, j);
      }
    }
  }

  /**
   * Any line with a ": " is read as the text before its first ": ",
   * lower-cased, and the first field after it with trailing whitespace
   * (a line break among it) trimmed, whether the line ends in CRLF, in a
   * bare LF or at the end of the stream.
   */
  lemma HeaderLineMeaning(name: string, rest: string)
    requires !HasSep(name)
    ensures ParseHeaderLine(name + ": " + rest) == Some(Header(Lower(name), TrimEnd(FirstField(rest))))
  {
    FirstSepOf(name, rest);
    Slices3(name, ": ", rest);
  }

  /**
   * The name is the text before the first ": ", lower-cased, and the value
   * stops at the second ": ": whatever follows it is dropped.
   */
  lemma ValueEndsAtSecondSeparator(name: string, value: string, tail: string)
    requires !HasSep(name) && !HasSep(value)
    ensures ParseHeaderLine(name + ": " + value + ": " + tail) == Some(Header(Lower(name), TrimEnd(value)))
  {
    FieldBeforeSep(value, tail);
    LineWithField(name, value + ": " + tail, value);
    Regroup(name, ": ", value, ": ", tail);
  }

  /** Concatenation regrouped: the last three parts form one string. */
  lemma Regroup(a: string, b: string, c: string, d: string, e: string)
    ensures a + b + c + d + e == a + b + (c + d + e)
  {
  }

  /** A line whose first field after the name is f yields the lower-cased name and f trimmed. */
  lemma LineWithField(name: string, rest: string, f: string)
    requires !HasSep(name) && FirstField(rest) == f
    ensures ParseHeaderLine(name + ": " + rest) == Some(Header(Lower(name), TrimEnd(f)))
  {
    HeaderLineMeaning(name, rest);
  }

  /** After a name without ": ", the ": " that follows it is the first one. */
  lemma FirstSepOf(name: string, rest: string)
    requires !HasSep(name)
    ensures FindSep(name + ": " + rest) == Some(|name|)
  {
    var line := name + ": " + rest;
    assert SepAt(line, |name|);
    forall j | 0 <= j < |name| ensures !SepAt(line, j) {
      if j + 1 < |name| {
        assert !SepAt(name, j);
      }
    }
  }

  /** A field without ": " followed by ": " is the first field. */
  lemma FieldBeforeSep(value: string, tail: string)
    requires !HasSep(value)
    ensures FirstField(value + ": " + tail) == value
  {
    var after := value + ": " + tail;
    var f := FirstField(after);
    assert SepAt(after, |value|);
    if |f| < |value| {
      assert SepAt(after, |f|);
      if |f| + 1 < |value| {
        assert SepAt(value, |f|);
      }
    }
  }

  /** The outer parts of a three-part concatenation are recovered by slicing. */
  lemma Slices3(a: string, b: string, c: string)
    ensures (a + b + c)[..|a|] == a && (a + b + c)[|a| + |b|..] == c
  {
  }

  /** "name: value\r\n" is a complete line when neither field holds a line break. */
  lemma HeaderTextIsLine(name: string, value: string)
    requires '\n' !in name && '\n' !in value
    ensures IsLine(HeaderText(name, value))
  {
    var line := HeaderText(name, value);
    assert line[..|line| - 1] == name + ": " + value + "\r";
  }

  /**
   * A header line written as "name: value\r\n" is a complete line that
   * parses back to the lower-cased name and the value.
   */
  lemma HeaderLineRoundTrip(name: string, value: string)
    requires CleanField(name) && CleanField(value) && !EndsInWhitespace(value)
    ensures IsLine(HeaderText(name, value))
    ensures ParseHeaderLine(HeaderText(name, value)) == Some(Header(Lower(name), value))
  {
    var line := HeaderText(name, value);
    assert FindSep(line) == Some(|name|) by {
      HeaderTextSep(name, value);
    }
    assert line[..|name|] == name && line[|name| + 2..] == value + "\r\n" by {
      assert line == name + ": " + (value + "\r\n");
      Slices3(name, ": ", value + "\r\n");
    }
    assert TrimEnd(FirstField(value + "\r\n")) == value by {
      ValueField(value);
      TrimEndSuffix(value, "\r\n");
    }
    HeaderTextIsLine(name, value);
  }

  // ----------------------------------------------------------- header loop

  /** The entries the header loop collected and the cursor after its last line. */
  datatype HeaderBlock = HeaderBlock(headers: seq<Header>, end: nat)

  /** What the header loop makes of one line it has read. */
  datatype LineKind =
    | Malformed          // not well-formed UTF-8: `read_line` fails
    | Ends               // no ": " in it: the loop stops
    | Entry(entry: Header)

  /** The header loop's decision for one line read by `read_line`. */
  function Classify(line: string): (r: LineKind)
    ensures r == Malformed <==> !Utf8.Valid(line)
    ensures r == Ends <==> Utf8.Valid(line) && !HasSep(line)
    ensures r.Entry? ==> IsLower(r.entry.name) && !HasSep(r.entry.name) && !EndsInWhitespace(r.entry.value)
  {
    if !Utf8.Valid(line) then Malformed
    else match ParseHeaderLine(line)
      case None => Ends
      case Some(h) => Entry(h)
  }

  /**
   * The header loop from cursor pos, with `seen` collected so far, deciding
   * each line with `classify` (the decoders pass Classify): it reads lines
   * until the end of the stream or the first line that ends the headers
   * (that line is consumed), and fails on a malformed line.
   */
  function ScanHeaders(classify: string -> LineKind, s: string, pos: nat, seen: seq<Header>): (r: Result<HeaderBlock, DecodeFailure>)
    requires pos <= |s|
    ensures r.Success? ==> pos <= r.value.end <= |s| && |seen| <= |r.value.headers|
    ensures r.Success? ==> r.value.headers[..|seen|] == seen
    ensures r.Failure? ==> r.error == InvalidUtf8
    decreases |s| - pos
  {
    var e := LineEnd(s, pos);
    if e == pos then Success(HeaderBlock(seen, pos))
    else match classify(s[pos..e])
      case Malformed => Failure(InvalidUtf8)
      case Ends => Success(HeaderBlock(seen, e))
      case Entry(h) =>
        var r := ScanHeaders(classify, s, e, seen + [h]);
        assert r.Success? ==> r.value.headers[..|seen|] == r.value.headers[..|seen| + 1][..|seen|];
        r
  }

  /** One turn of the header loop on a line that `classify` turns into an entry. */
  lemma ScanEntry(classify: string -> LineKind, s: string, pos: nat, seen: seq<Header>, h: Header)
    requires pos < |s| && classify(s[pos..LineEnd(s, pos)]) == Entry(h)
    ensures ScanHeaders(classify, s, pos, seen) == ScanHeaders(classify, s, LineEnd(s, pos), seen + [h])
  {
  }

  /** The header loop fails on a malformed line. */
  lemma ScanMalformed(classify: string -> LineKind, s: string, pos: nat, seen: seq<Header>)
    requires pos < |s| && classify(s[pos..LineEnd(s, pos)]) == Malformed
    ensures ScanHeaders(classify, s, pos, seen) == Failure(InvalidUtf8)
  {
  }

  /** The header loop stops after a line that ends the headers. */
  lemma ScanEnds(classify: string -> LineKind, s: string, pos: nat, seen: seq<Header>)
    requires pos < |s| && classify(s[pos..LineEnd(s, pos)]) == Ends
    ensures ScanHeaders(classify, s, pos, seen) == Success(HeaderBlock(seen, LineEnd(s, pos)))
  {
  }

  /**
   * From cursor pos to cursor end the stream holds lines that `classify`
   * turns into the entries hs, in order.
   */
  predicate HeaderRun(classify: string -> LineKind, s: string, pos: nat, end: nat, hs: seq<Header>)
    decreases |hs|
  {
    if hs == [] then pos == end
    else
      && pos < end <= |s|
      && var e := LineEnd(s, pos);
      && e <= end
      && classify(s[pos..e]) == Entry(hs[0])
      && HeaderRun(classify, s, e, end, hs[1..])
  }

  /** The header loop consumes a run of header lines one by one, collecting their entries in order. */
  lemma {:induction false} ScanRun(classify: string -> LineKind, s: string, pos: nat, end: nat, hs: seq<Header>, seen: seq<Header>)
    requires pos <= |s| && HeaderRun(classify, s, pos, end, hs)
    ensures end <= |s|
    ensures ScanHeaders(classify, s, pos, seen) == ScanHeaders(classify, s, end, seen + hs)
    decreases |hs|
  {
    if hs == [] {
      assert seen + hs == seen;
    } else {
      var e := LineEnd(s, pos);
      ScanRun(classify, s, e, end, hs[1..], seen + [hs[0]]);
      assert seen + [hs[0]] + hs[1..] == seen + hs;
    }
  }

  function Concat(lines: seq<string>): string
  {
    if lines == [] then [] else lines[0] + Concat(lines[1..])
  }

  lemma {:induction false} ConcatSnoc(lines: seq<string>, l: string)
    ensures Concat(lines + [l]) == Concat(lines) + l
  {
    if lines != [] {
      ConcatSnoc(lines[1..], l);
      assert (lines + [l])[1..] == lines[1..] + [l];
    }
  }

  /** Each of lines is a complete line that `classify` turns into the entry at the same index of hs. */
  predicate ParsesAs(classify: string -> LineKind, lines: seq<string>, hs: seq<Header>)
    decreases |lines|
  {
    && |lines| == |hs|
    && (lines != [] ==>
         && IsLine(lines[0])
         && classify(lines[0]) == Entry(hs[0])
         && ParsesAs(classify, lines[1..], hs[1..]))
  }

  /** ParsesAs, checked line by line. */
  lemma {:induction false} ParsesAsEach(classify: string -> LineKind, lines: seq<string>, hs: seq<Header>)
    requires |lines| == |hs|
    requires forall i :: 0 <= i < |lines| ==> IsLine(lines[i]) && classify(lines[i]) == Entry(hs[i])
    ensures ParsesAs(classify, lines, hs)
    decreases |lines|
  {
    if lines != [] {
      ParsesAsEach(classify, lines[1..], hs[1..]);
    }
  }

  /** Header lines standing one after another at the cursor form a run of their entries, up to the cursor after them. */
  lemma {:induction false} RunOfLines(classify: string -> LineKind, s: string, pos: nat, end: nat, lines: seq<string>, hs: seq<Header>)
    requires At(s, pos, Concat(lines)) && end == pos + |Concat(lines)| && ParsesAs(classify, lines, hs)
    ensures HeaderRun(classify, s, pos, end, hs)
    decreases |lines|
  {
    if lines != [] {
      var l, c := lines[0], Concat(lines[1..]);
      assert Concat(lines) == l + c;
      AtSplit(s, pos, l, c);
      RunOfLines(classify, s, pos + |l|, end, lines[1..], hs[1..]);
      RunCons(classify, s, pos, l, end, hs);
    }
  }

  /** A header line standing at the cursor, before a run, extends the run by its entry. */
  lemma RunCons(classify: string -> LineKind, s: string, pos: nat, l: string, end: nat, hs: seq<Header>)
    requires At(s, pos, l) && IsLine(l) && hs != [] && classify(l) == Entry(hs[0])
    requires HeaderRun(classify, s, pos + |l|, end, hs[1..])
    ensures HeaderRun(classify, s, pos, end, hs)
  {
    LineEndAt(s, pos, l);
  }

  /** At a line that `classify` says ends the headers, or at the end of the stream, the loop stops after that line. */
  lemma SectionEnd(classify: string -> LineKind, s: string, end: nat, term: string, seen: seq<Header>)
    requires At(s, end, term)
    requires term == [] ==> end == |s|
    requires term != [] ==> IsLine(term) && classify(term) == Ends
    ensures ScanHeaders(classify, s, end, seen) == Success(HeaderBlock(seen, end + |term|))
  {
    if term != [] {
      LineEndAt(s, end, term);
    }
  }

  /**
   * A header section — header lines, then a line that ends the headers (or
   * the end of the stream) — is read as exactly the entries of its lines,
   * and the loop stops right after that last line, before whatever follows.
   */
  lemma HeaderSection(classify: string -> LineKind, s: string, pos: nat, lines: seq<string>, hs: seq<Header>, term: string)
    requires At(s, pos, Concat(lines) + term) && ParsesAs(classify, lines, hs)
    requires term == [] ==> pos + |Concat(lines)| == |s|
    requires term != [] ==> IsLine(term) && classify(term) == Ends
    ensures ScanHeaders(classify, s, pos, []) == Success(HeaderBlock(hs, pos + |Concat(lines)| + |term|))
  {
    var end := pos + |Concat(lines)|;
    AtSplit(s, pos, Concat(lines), term);
    RunOfLines(classify, s, pos, end, lines, hs);
    RunThenEnd(classify, s, pos, end, hs, term);
  }

  /** A run of header lines followed by a line that ends the headers (or the end of the stream) is read as the run's entries. */
  lemma RunThenEnd(classify: string -> LineKind, s: string, pos: nat, end: nat, hs: seq<Header>, term: string)
    requires pos <= |s| && HeaderRun(classify, s, pos, end, hs) && At(s, end, term)
    requires term == [] ==> end == |s|
    requires term != [] ==> IsLine(term) && classify(term) == Ends
    ensures ScanHeaders(classify, s, pos, []) == Success(HeaderBlock(hs, end + |term|))
  {
    ScanRun(classify, s, pos, end, hs, []);
    SectionEnd(classify, s, end, term, [] + hs);
    assert [] + hs == hs;
  }

  /**
   * HeaderSection for a stream written as a first part a, the header
   * lines, a line that ends them, and any rest.
   */
  lemma WrittenSection(classify: string -> LineKind, a: string, lines: seq<string>, hs: seq<Header>, term: string, rest: string)
    requires ParsesAs(classify, lines, hs) && IsLine(term) && classify(term) == Ends
    ensures var s := a + (Concat(lines) + term) + rest;
      ScanHeaders(classify, s, |a|, []) == Success(HeaderBlock(hs, |s| - |rest|))
  {
    AtAfter(a, Concat(lines) + term, rest);
    HeaderSection(classify, a + (Concat(lines) + term) + rest, |a|, lines, hs, term);
  }

  /** The blank line "\r\n" ends the headers. */
  lemma BlankLineEnds()
    ensures IsLine("\r\n") && Classify("\r\n") == Ends
  {
    assert !SepAt("\r\n", 0);
  }

  /** "name: value\r\n" is well-formed UTF-8 when name and value are. */
  lemma HeaderTextValid(name: string, value: string)
    requires Utf8.Valid(name) && Utf8.Valid(value)
    ensures Utf8.Valid(HeaderText(name, value))
  {
    Utf8.AsciiValid(": ");
    Utf8.AsciiValid("\r\n");
    Utf8.ConcatValid(name, ": ");
    Utf8.ConcatValid(name + ": ", value);
    Utf8.ConcatValid(name + ": " + value, "\r\n");
  }

  /** A header line written as "name: value\r\n" from well-formed fields is an entry of the header loop. */
  lemma HeaderLineClassified(name: string, value: string)
    requires CleanField(name) && CleanField(value) && !EndsInWhitespace(value)
    requires Utf8.Valid(name) && Utf8.Valid(value)
    ensures IsLine(HeaderText(name, value))
    ensures Classify(HeaderText(name, value)) == Entry(Header(Lower(name), value))
  {
    HeaderLineRoundTrip(name, value);
    HeaderTextValid(name, value);
  }

  // ------------------------------------------------------------ insertion

  function Names(hs: seq<Header>): set<string>
  {
    if hs == [] then {} else {hs[0].name} + Names(hs[1..])
  }

  /**
   * `headers.insert` for each entry in turn, starting from m: a later entry
   * for a name overwrites an earlier one.
   */
  function InsertAll(hs: seq<Header>, m: map<string, string>): (r: map<string, string>)
    ensures r.Keys == m.Keys + Names(hs)
    ensures forall k :: k in m && k !in Names(hs) ==> r[k] == m[k]
    decreases |hs|
  {
    if hs == [] then m else InsertAll(hs[1..], m[hs[0].name := hs[0].value])
  }

  /** Inserting one more entry is one more map update. */
  lemma {:induction false} InsertAllSnoc(hs: seq<Header>, h: Header, m: map<string, string>)
    ensures InsertAll(hs + [h], m) == InsertAll(hs, m)[h.name := h.value]
    decreases |hs|
  {
    if hs == [] {
      assert [] + [h] == [h];
    } else {
      assert (hs + [h])[1..] == hs[1..] + [h];
      InsertAllSnoc(hs[1..], h, m[hs[0].name := hs[0].value]);
    }
  }

  /** The value stored for a name is the one of the last entry with that name. */
  lemma {:induction false} LastWins(hs: seq<Header>, m: map<string, string>, i: nat)
    requires i < |hs|
    requires forall j :: i < j < |hs| ==> hs[j].name != hs[i].name
    ensures hs[i].name in InsertAll(hs, m)
    ensures InsertAll(hs, m)[hs[i].name] == hs[i].value
    decreases |hs|
  {
    if i == 0 {
      var m' := m[hs[0].name := hs[0].value];
      assert hs[0].name !in Names(hs[1..]) by {
        NamesIndex(hs[1..], hs[0].name);
      }
    } else {
      LastWins(hs[1..], m[hs[0].name := hs[0].value], i - 1);
    }
  }

  /** A name is among Names(hs) exactly when some entry carries it. */
  lemma {:induction false} NamesIndex(hs: seq<Header>, k: string)
    ensures k in Names(hs) <==> exists j :: 0 <= j < |hs| && hs[j].name == k
    decreases |hs|
  {
    if hs != [] {
      NamesIndex(hs[1..], k);
      if exists j :: 0 <= j < |hs[1..]| && hs[1..][j].name == k {
        var j :| 0 <= j < |hs[1..]| && hs[1..][j].name == k;
        assert hs[j + 1].name == k;
      }
      if exists j :: 0 <= j < |hs| && hs[j].name == k {
        var j :| 0 <= j < |hs| && hs[j].name == k;
        if j > 0 {
          assert hs[1..][j - 1].name == k;
        }
      }
    }
  }

  /**
   * Two header lines whose names differ only in letter case leave one
   * entry, under the lower-cased name, holding the later value; the entries
   * for every other name are untouched.
   */
  lemma CaseInsensitiveNames(n1: string, v1: string, n2: string, v2: string, m: map<string, string>)
    requires CleanField(n1) && CleanField(v1) && !EndsInWhitespace(v1)
    requires CleanField(n2) && CleanField(v2) && !EndsInWhitespace(v2)
    requires Lower(n1) == Lower(n2)
    ensures var h1 := ParseHeaderLine(HeaderText(n1, v1));
            var h2 := ParseHeaderLine(HeaderText(n2, v2));
            h1.Some? && h2.Some? && InsertAll([h1.value, h2.value], m) == m[Lower(n1) := v2]
  {
    HeaderLineRoundTrip(n1, v1);
    HeaderLineRoundTrip(n2, v2);
    SameNameTwice(Header(Lower(n1), v1), Header(Lower(n2), v2), m);
  }

  /** Two entries for the same name leave the later value. */
  lemma SameNameTwice(h1: Header, h2: Header, m: map<string, string>)
    requires h1.name == h2.name
    ensures InsertAll([h1, h2], m) == m[h1.name := h2.value]
  {
    assert [h1, h2][1..][1..] == [];
  }

  // ------------------------------------------------------------------ body

  const ContentLength := "content-length"

  /** The body the decoder read and the cursor after it. */
  datatype BodyRead = BodyRead(body: string, next: nat)

  /**
   * The body read at cursor pos: without a content-length entry nothing is
   * read; otherwise the value must parse as a usize N, N more octets must
   * be available (`read_exact`), and they must be well-formed UTF-8
   * (`String::from_utf8`).
   */
  function ReadBody(s: string, pos: nat, headers: map<string, string>): (r: Result<BodyRead, DecodeFailure>)
    requires pos <= |s|
    ensures ContentLength !in headers ==> r == Success(BodyRead("", pos))
    ensures r.Success? ==> r.value.next == pos + |r.value.body| <= |s| && r.value.body == s[pos..r.value.next]
    ensures r.Success? && ContentLength in headers ==> ParseUsize(headers[ContentLength]) == Some(|r.value.body|)
    ensures ContentLength in headers ==>
      (r == Failure(InvalidLength) <==> ParseUsize(headers[ContentLength]).None?)
    ensures ContentLength in headers && ParseUsize(headers[ContentLength]).Some? ==>
      (r == Failure(UnexpectedEof) <==> pos + ParseUsize(headers[ContentLength]).value > |s|)
    ensures ContentLength in headers && ParseUsize(headers[ContentLength]).Some? ==>
      pos + ParseUsize(headers[ContentLength]).value <= |s| ==>
      (r.Success? <==> Utf8.Valid(s[pos..pos + ParseUsize(headers[ContentLength]).value]))
    ensures r.Failure? ==> !r.error.Rejected?
  {
    if ContentLength !in headers then Success(BodyRead("", pos))
    else match ParseUsize(headers[ContentLength])
      case None => Failure(InvalidLength)
      case Some(n) =>
        if |s| - pos < n then Failure(UnexpectedEof)
        else if !Utf8.Valid(s[pos..pos + n]) then Failure(InvalidUtf8)
        else Success(BodyRead(s[pos..pos + n], pos + n))
  }

  /** A body of exactly content-length octets at the end of the stream is read whole. */
  lemma BodyAtEnd(x: string, body: string, headers: map<string, string>)
    requires ContentLength in headers && ParseUsize(headers[ContentLength]) == Some(|body|)
    requires Utf8.Valid(body)
    ensures ReadBody(x + body, |x|, headers) == Success(BodyRead(body, |x + body|))
  {
    assert (x + body)[|x|..|x| + |body|] == body;
  }

  /** Everything after the request line: the header map, the body and the cursor after it. */
  datatype Message = Message(headers: map<string, string>, body: string, next: nat)

  /**
   * The header loop from cursor pos, the insertion of its entries into an
   * empty map, then the body read after the last header-section line.
   */
  function ReadMessage(classify: string -> LineKind, s: string, pos: nat): (r: Result<Message, DecodeFailure>)
    requires pos <= |s|
    ensures r.Success? ==> pos <= r.value.next <= |s|
    ensures r.Failure? ==> !r.error.Rejected?
  {
    match ScanHeaders(classify, s, pos, [])
    case Failure(f) => Failure(f)
    case Success(block) =>
      var headers := InsertAll(block.headers, map[]);
      match ReadBody(s, block.end, headers)
      case Failure(f) => Failure(f)
      case Success(b) => Success(Message(headers, b.body, b.next))
  }

  /**
   * The header loop of both decoders: read lines from cursor first until
   * the end of the stream or a line that ends the headers, inserting each
   * entry into the map as it is read. `classify` stands for the loop's
   * per-line decision (a failed `read_line`, the `": "` test, the split and
   * trim and lower-casing of name and value).
   */
  method HeaderLoop(classify: string -> LineKind, s: string, first: nat)
    returns (r: Result<HeaderBlock, DecodeFailure>, headers: map<string, string>)
    requires first <= |s|
    ensures r == ScanHeaders(classify, s, first, [])
    ensures r.Success? ==> headers == InsertAll(r.value.headers, map[])
  {
    headers := map[];
    var pos := first;
    var seen: seq<Header> := [];
    while true
      invariant first <= pos <= |s|
      invariant ScanHeaders(classify, s, first, []) == ScanHeaders(classify, s, pos, seen)
      invariant headers == InsertAll(seen, map[])
      decreases |s| - pos
    {
      var next := LineEnd(s, pos);
      if next == pos {
        return Success(HeaderBlock(seen, pos)), headers;
      }
      var kind := classify(s[pos..next]);
      match kind
      case Malformed =>
        ScanMalformed(classify, s, pos, seen);
        return Failure(InvalidUtf8), headers;
      case Ends =>
        ScanEnds(classify, s, pos, seen);
        return Success(HeaderBlock(seen, next)), headers;
      case Entry(h) =>
        ScanEntry(classify, s, pos, seen, h);
        headers := headers[h.name := h.value];
        InsertAllSnoc(seen, h, map[]);
        seen := seen + [h];
        pos := next;
    }
  }

  /**
   * The body read of both decoders at cursor pos: with a content-length
   * entry, parse it, take that many octets and check that they are
   * well-formed UTF-8.
   */
  method TakeBody(s: string, pos: nat, headers: map<string, string>) returns (r: Result<BodyRead, DecodeFailure>)
    requires pos <= |s|
    ensures r == ReadBody(s, pos, headers)
  {
    var body := "";
    if ContentLength in headers {
      var size := ParseUsize(headers[ContentLength]);
      if size.None? {
        return Failure(InvalidLength);
      }
      if |s| - pos < size.value {
        return Failure(UnexpectedEof);
      }
      var buf := s[pos..pos + size.value];
      if !Utf8.Valid(buf) {
        return Failure(InvalidUtf8);
      }
      body := buf;
    }
    return Success(BodyRead(body, pos + |body|));
  }

  /** The header loop, then the body read after the header section. */
  method TakeMessage(classify: string -> LineKind, s: string, pos: nat) returns (r: Result<Message, DecodeFailure>)
    requires pos <= |s|
    ensures r == ReadMessage(classify, s, pos)
  {
    var block, headers := HeaderLoop(classify, s, pos);
    if block.Failure? {
      return Failure(block.error);
    }
    var b := TakeBody(s, block.value.end, headers);
    if b.Failure? {
      return Failure(b.error);
    }
    return Success(Message(headers, b.value.body, b.value.next));
  }

  /** Once the header loop has stopped at cursor end, the message is the outcome of the body read there. */
  lemma MessageAfterHeaders(classify: string -> LineKind, s: string, pos: nat, hs: seq<Header>, end: nat)
    requires pos <= |s| && ScanHeaders(classify, s, pos, []) == Success(HeaderBlock(hs, end))
    ensures end <= |s|
    ensures var headers := InsertAll(hs, map[]);
      ReadMessage(classify, s, pos) == match ReadBody(s, end, headers)
        case Failure(f) => Failure(f)
        case Success(b) => Success(Message(headers, b.body, b.next))
  {
  }

  /** Every entry the line decision produces has a lower-case name. */
  ghost predicate NamesLowerCased(classify: string -> LineKind)
  {
    forall line :: classify(line).Entry? ==> IsLower(classify(line).entry.name)
  }

  /** The library's line decision lower-cases header names. */
  lemma ClassifyNamesLower()
    ensures NamesLowerCased(Classify)
  {
  }

  /** A loop whose decision lower-cases names collects only lower-case names. */
  lemma {:induction false} ScanNamesLower(classify: string -> LineKind, s: string, pos: nat, seen: seq<Header>)
    requires pos <= |s| && NamesLowerCased(classify)
    requires forall i :: 0 <= i < |seen| ==> IsLower(seen[i].name)
    ensures var r := ScanHeaders(classify, s, pos, seen);
      r.Success? ==> forall i :: 0 <= i < |r.value.headers| ==> IsLower(r.value.headers[i].name)
    decreases |s| - pos
  {
    var e := LineEnd(s, pos);
    if e != pos {
      match classify(s[pos..e])
      case Entry(h) =>
        ScanNamesLower(classify, s, e, seen + [h]);
      case Malformed =>
      case Ends =>
    }
  }

  /** Every key of the map a header loop builds is lower-case when its decision lower-cases names. */
  lemma MessageNamesLower(classify: string -> LineKind, s: string, pos: nat)
    requires pos <= |s| && NamesLowerCased(classify)
    ensures var r := ReadMessage(classify, s, pos);
      r.Success? ==> forall k :: k in r.value.headers ==> IsLower(k)
  {
    ScanNamesLower(classify, s, pos, []);
    match ScanHeaders(classify, s, pos, [])
    case Failure(_) =>
    case Success(b) =>
      forall k | k in InsertAll(b.headers, map[]) ensures IsLower(k) {
        NamesIndex(b.headers, k);
      }
  }

  /**
   * A written header section followed by the rest of the stream: the
   * message holds the map of the section's entries and the outcome of the
   * body read right after the section.
   */
  lemma WrittenMessage(classify: string -> LineKind, a: string, lines: seq<string>, hs: seq<Header>, term: string, rest: string)
    requires ParsesAs(classify, lines, hs) && IsLine(term) && classify(term) == Ends
    ensures var head := a + (Concat(lines) + term);
      var headers := InsertAll(hs, map[]);
      ReadMessage(classify, head + rest, |a|) == match ReadBody(head + rest, |head|, headers)
        case Failure(f) => Failure(f)
        case Success(b) => Success(Message(headers, b.body, b.next))
  {
    var s := a + (Concat(lines) + term) + rest;
    WrittenSection(classify, a, lines, hs, term, rest);
    MessageAfterHeaders(classify, s, |a|, hs, |s| - |rest|);
  }

  // ---------------------------------------------------------- request line

  /** A request-line token: no space and no line break. */
  predicate IsToken(t: string)
  {
    ' ' !in t && '\n' !in t
  }

  /** The request line "VERB TARGET VERSION\r\n". */
  function RequestLineText(verb: string, target: string, version: string): string
  {
    verb + " " + target + " " + version + "\r\n"
  }

  /** A request line built from well-formed UTF-8 pieces is well-formed UTF-8. */
  lemma RequestLineValid(verb: string, target: string, version: string)
    requires Utf8.Valid(verb) && Utf8.Valid(target) && Utf8.Valid(version)
    ensures Utf8.Valid(RequestLineText(verb, target, version))
  {
    Utf8.AsciiValid(" ");
    Utf8.AsciiValid("\r\n");
    Utf8.ConcatValid(verb, " ");
    Utf8.ConcatValid(verb + " ", target);
    Utf8.ConcatValid(verb + " " + target, " ");
    Utf8.ConcatValid(verb + " " + target + " ", version);
    Utf8.ConcatValid(verb + " " + target + " " + version, "\r\n");
  }

  /**
   * A request line built from three tokens is the first line read, splits
   * into exactly those three tokens (the last with its line break), and
   * trimming the last gives the version back.
   */
  lemma RequestLineTokens(verb: string, target: string, version: string, rest: string)
    requires IsToken(verb) && IsToken(target) && IsToken(version) && !EndsInWhitespace(version)
    ensures var line := RequestLineText(verb, target, version);
      && LineEnd(line + rest, 0) == |line|
      && (line + rest)[..|line|] == line
      && Split(line, ' ') == [verb, target, version + "\r\n"]
      && TrimEnd(version + "\r\n") == version
  {
    var line := RequestLineText(verb, target, version);
    assert line[..|line| - 1] == verb + " " + target + " " + version + "\r";
    assert '\n' !in line[..|line| - 1];
    assert (line + rest)[..|line|] == line;
    LineEndAt(line + rest, 0, line);
    assert line == verb + [' '] + (target + [' '] + (version + "\r\n"));
    SplitAfter(verb, ' ', target + [' '] + (version + "\r\n"));
    SplitAfter(target, ' ', version + "\r\n");
    SplitWhole(version + "\r\n", ' ');
    TrimEndSuffix(version, "\r\n");
  }

  /**
   * Tokens after the version are ignored: whatever follows the third space,
   * the first three pieces of the request line are the method, the target
   * and the version.
   */
  lemma ExtraTokens(verb: string, target: string, version: string, tail: string)
    requires ' ' !in verb && ' ' !in target && ' ' !in version
    ensures Split(verb + " " + target + " " + version + " " + tail, ' ') == [verb, target, version] + Split(tail, ' ')
  {
    assert verb + " " + target + " " + version + " " + tail == verb + [' '] + (target + [' '] + (version + [' '] + tail));
    SplitAfter(verb, ' ', target + [' '] + (version + [' '] + tail));
    SplitAfter(target, ' ', version + [' '] + tail);
    SplitAfter(version, ' ', tail);
  }
}
