/**
 * The request decoder of the server binary (the private `HttpRequest::new`
 * of the executable): the same request-line split, header loop and body
 * read as the library's, except that the method is kept as the raw first
 * token, unchecked, and header values are lower-cased as well as names.
 */
module ServerRequest {
  import opened Wrappers
  import opened Text
  import Utf8
  import opened HttpTypes
  import opened Wire
  import opened HeaderMap
  import Request

  datatype RawRequest = RawRequest(
    httpMethod: string,
    target: string,
    httpVersion: string,
    headers: map<string, string>,
    body: string)

  /** A decoded request and the number of octets of the stream it consumed. */
  datatype Decoded = Decoded(request: RawRequest, consumed: nat)

  /** The entry with its value lower-cased. */
  function LowerValue(h: Header): Header
  {
    Header(h.name, Lower(h.value))
  }

  /** Every entry with its value lower-cased. */
  function LowerEach(hs: seq<Header>): (r: seq<Header>)
    ensures |r| == |hs| && forall i :: 0 <= i < |hs| ==> r[i] == LowerValue(hs[i])
  {
    seq(|hs|, i requires 0 <= i < |hs| => LowerValue(hs[i]))
  }

  /** The map with every value lower-cased. */
  function LowerValues(m: map<string, string>): (r: map<string, string>)
    ensures r.Keys == m.Keys && forall k :: k in m ==> r[k] == Lower(m[k])
  {
    map k | k in m :: Lower(m[k])
  }

  /** The line decision `lowered` is `classify`'s with every entry's value lower-cased. */
  ghost predicate LowersValues(classify: string -> LineKind, lowered: string -> LineKind)
  {
    forall line :: lowered(line) == match classify(line)
      case Entry(h) => Entry(LowerValue(h))
      case Malformed => Malformed
      case Ends => Ends
  }

  /** The server's header loop decision: the library's, then the value lower-cased. */
  function ClassifyLowered(line: string): (r: LineKind)
    ensures r.Entry? <==> Classify(line).Entry?
    ensures !r.Entry? ==> r == Classify(line)
    ensures r.Entry? ==> IsLower(r.entry.name) && IsLower(r.entry.value)
  {
    match Classify(line)
    case Entry(h) => Entry(LowerValue(h))
    case Malformed => Malformed
    case Ends => Ends
  }

  /**
   * What the server's `HttpRequest::new` makes of the stream s. The first
   * token is taken as it is; a missing target or version is where the
   * source's unwrap panics.
   */
  function Parse(s: string): (r: Result<Decoded, DecodeFailure>)
    ensures r.Success? ==> Utf8.Valid(s[..LineEnd(s, 0)]) && LineEnd(s, 0) <= r.value.consumed <= |s|
    ensures r.Success? ==> !EndsInWhitespace(r.value.request.httpVersion)
  {
    var e := LineEnd(s, 0);
    var line := s[..e];
    if !Utf8.Valid(line) then Failure(InvalidUtf8)
    else
      var tokens := Split(line, ' ');
      if |tokens| < 2 then Failure(Rejected(InvalidTarget))
      else if |tokens| < 3 then Failure(Rejected(InvalidVersion))
      else match ReadMessage(ClassifyLowered, s, e)
        case Failure(f) => Failure(f)
        case Success(msg) =>
          Success(Decoded(RawRequest(tokens[0], tokens[1], TrimEnd(tokens[2]), msg.headers, msg.body), msg.next))
  }

  /**
   * The server's `HttpRequest::new` over the stream `input`: read the
   * request line, then the header lines with lower-cased names and values,
   * then the body.
   */
  method Decode(input: string) returns (r: Result<Decoded, DecodeFailure>)
    ensures r == Parse(input)
  {
    var first := LineEnd(input, 0);
    var line := input[..first];
    if !Utf8.Valid(line) {
      return Failure(InvalidUtf8);
    }
    var tokens := Split(line, ' ');
    if |tokens| < 2 {
      return Failure(Rejected(InvalidTarget));
    }
    if |tokens| < 3 {
      return Failure(Rejected(InvalidVersion));
    }
    var msg := TakeMessage(ClassifyLowered, input, first);
    if msg.Failure? {
      return Failure(msg.error);
    }
    var request := RawRequest(tokens[0], tokens[1], TrimEnd(tokens[2]), msg.value.headers, msg.value.body);
    return Success(Decoded(request, msg.value.next));
  }

  // ---------------------------------------------------------------- properties

  /**
   * A header loop whose decision lower-cases values reads the same lines,
   * stops at the same place and fails in the same way as the one that
   * does not, and collects the same entries with values lower-cased.
   */
  lemma {:induction false} ScanLowered(classify: string -> LineKind, lowered: string -> LineKind,
                                        s: string, pos: nat, seen: seq<Header>)
    requires pos <= |s| && LowersValues(classify, lowered)
    ensures ScanHeaders(lowered, s, pos, LowerEach(seen)) == match ScanHeaders(classify, s, pos, seen)
      case Failure(f) => Failure(f)
      case Success(b) => Success(HeaderBlock(LowerEach(b.headers), b.end))
    decreases |s| - pos
  {
    var e := LineEnd(s, pos);
    if e != pos {
      match classify(s[pos..e])
      case Entry(h) =>
        assert LowerEach(seen + [h]) == LowerEach(seen) + [LowerValue(h)];
        ScanLowered(classify, lowered, s, e, seen + [h]);
      case Malformed =>
      case Ends =>
    }
  }

  /** Inserting entries with lower-cased values gives the map with lower-cased values. */
  lemma {:induction false} InsertAllLowered(hs: seq<Header>, m: map<string, string>)
    ensures InsertAll(LowerEach(hs), LowerValues(m)) == LowerValues(InsertAll(hs, m))
    decreases |hs|
  {
    if hs != [] {
      assert LowerEach(hs)[1..] == LowerEach(hs[1..]);
      assert LowerValues(m)[hs[0].name := Lower(hs[0].value)] == LowerValues(m[hs[0].name := hs[0].value]);
      InsertAllLowered(hs[1..], m[hs[0].name := hs[0].value]);
    }
  }

  /**
   * Lower-casing the values does not change the body read: a content-length
   * value parses to the same size in either letter case.
   */
  lemma BodyLowered(s: string, pos: nat, headers: map<string, string>)
    requires pos <= |s|
    ensures ReadBody(s, pos, LowerValues(headers)) == ReadBody(s, pos, headers)
  {
    var lowered := LowerValues(headers);
    if ContentLength in headers {
      ParseUsizeIgnoresCase(headers[ContentLength]);
    }
    SameLength(s, pos, lowered, headers);
  }

  /** Two maps whose content-length entries parse alike give the same body read. */
  lemma SameLength(s: string, pos: nat, a: map<string, string>, b: map<string, string>)
    requires pos <= |s| && (ContentLength in a <==> ContentLength in b)
    requires ContentLength in a ==> ParseUsize(a[ContentLength]) == ParseUsize(b[ContentLength])
    ensures ReadBody(s, pos, a) == ReadBody(s, pos, b)
  {
  }

  /**
   * After the request line, lower-casing values changes nothing but the
   * values: the same outcome, the same body, the same cursor, and the map
   * with its values lower-cased.
   */
  lemma MessageLowered(classify: string -> LineKind, lowered: string -> LineKind, s: string, pos: nat)
    requires pos <= |s| && LowersValues(classify, lowered)
    ensures ReadMessage(lowered, s, pos) == match ReadMessage(classify, s, pos)
      case Failure(f) => Failure(f)
      case Success(m) => Success(Message(LowerValues(m.headers), m.body, m.next))
  {
    assert LowerEach([]) == [];
    ScanLowered(classify, lowered, s, pos, []);
    match ScanHeaders(classify, s, pos, [])
    case Failure(_) =>
    case Success(b) =>
      InsertAllLowered(b.headers, map[]);
      assert LowerValues(map[]) == map[];
      BodyLowered(s, b.end, InsertAll(b.headers, map[]));
  }

  /** The server's decision is the library's with values lower-cased. */
  lemma ClassifyLowersValues()
    ensures LowersValues(Classify, ClassifyLowered)
  {
  }

  /**
   * The two decoders agree up to the method and the letter case of values:
   * whenever the library decodes a stream, the server decodes it too, with
   * the first token as its method and the library's map with lower-cased
   * values; whenever the library fails for any reason but an unknown
   * method, the server fails the same way.
   */
  lemma LibraryAgreement(s: string)
    ensures var tokens := Split(s[..LineEnd(s, 0)], ' ');
      match Request.Parse(s)
      case Success(d) =>
        Parse(s) == Success(Decoded(RawRequest(tokens[0], d.request.target, d.request.httpVersion,
                                               LowerValues(d.request.headers), d.request.body), d.consumed))
      case Failure(f) => f != Rejected(InvalidMethod) ==> Parse(s) == Failure(f)
  {
    var e := LineEnd(s, 0);
    var tokens := Split(s[..e], ' ');
    if Utf8.Valid(s[..e]) && MethodFromToken(tokens[0]).Some? && |tokens| >= 3 {
      ClassifyLowersValues();
      MessageLowered(Classify, ClassifyLowered, s, e);
    }
  }

  /**
   * The method token is not checked: the server never rejects a request
   * for its method, and a decoded request carries the first token verbatim.
   */
  lemma MethodVerbatim(s: string)
    ensures Parse(s) != Failure(Rejected(InvalidMethod))
    ensures Parse(s).Success? ==> Parse(s).value.request.httpMethod == Split(s[..LineEnd(s, 0)], ' ')[0]
  {
  }

  /**
   * What the server makes of any stream, whatever its first token: it
   * decodes exactly when the first line is well-formed UTF-8 with at least
   * three pieces and the library's header loop and body read succeed after
   * it; the request then holds the first piece as the method, the second as
   * the target, the third trimmed as the version, and the library's map
   * with lower-cased values and its body.
   */
  lemma ServerLayout(s: string)
    ensures var e := LineEnd(s, 0); var tokens := Split(s[..e], ' ');
      Parse(s).Success? <==> Utf8.Valid(s[..e]) && |tokens| >= 3 && ReadMessage(Classify, s, e).Success?
    ensures var e := LineEnd(s, 0); var tokens := Split(s[..e], ' ');
      Parse(s).Success? ==>
        var m := ReadMessage(Classify, s, e).value;
        Parse(s).value == Decoded(RawRequest(tokens[0], tokens[1], TrimEnd(tokens[2]),
                                             LowerValues(m.headers), m.body), m.next)
  {
    ClassifyLowersValues();
    MessageLowered(Classify, ClassifyLowered, s, LineEnd(s, 0));
  }

  /**
   * Once the request line has three pieces and the library's header loop
   * and body read succeed after it with msg, the server's request holds the
   * raw first piece, the second, the third trimmed, msg's map with
   * lower-cased values and msg's body.
   */
  lemma AfterRequestLine(s: string, line: string, msg: Message)
    requires LineEnd(s, 0) == |line| && s[..|line|] == line
    requires Utf8.Valid(line) && |Split(line, ' ')| >= 3
    requires ReadMessage(Classify, s, |line|) == Success(msg)
    ensures var tokens := Split(line, ' ');
      Parse(s) == Success(Decoded(RawRequest(tokens[0], tokens[1], TrimEnd(tokens[2]),
                                             LowerValues(msg.headers), msg.body), msg.next))
  {
    ServerLayout(s);
  }

  /**
   * A request line written from any three tokens, whatever follows it, is
   * read as the first line, is well-formed UTF-8 and splits into the three
   * tokens, the last with its line break, which trimming removes.
   */
  lemma WrittenLineRead(verb: string, target: string, version: string, section: string, body: string)
    requires IsToken(verb) && IsToken(target) && IsToken(version) && !EndsInWhitespace(version)
    requires Utf8.Valid(verb) && Utf8.Valid(target) && Utf8.Valid(version)
    ensures var line := RequestLineText(verb, target, version);
      var s := line + section + body;
      && LineEnd(s, 0) == |line| && s[..|line|] == line && Utf8.Valid(line)
      && Split(line, ' ') == [verb, target, version + "\r\n"] && TrimEnd(version + "\r\n") == version
  {
    var line := RequestLineText(verb, target, version);
    RequestLineValid(verb, target, version);
    RequestLineTokens(verb, target, version, section + body);
    assert line + section + body == line + (section + body);
  }

  /**
   * The server reads back what is written for any verb, known or not: a
   * request line of three tokens, a readable header map written as a
   * header section and a body that goes with the map decode to that verb,
   * target, version and body, with the map's values lower-cased, and the
   * whole text is consumed.
   */
  lemma ServerReadBack(verb: string, target: string, version: string,
                       headers: map<string, string>, body: string, order: seq<string>)
    requires IsToken(verb) && IsToken(target) && IsToken(version) && !EndsInWhitespace(version)
    requires Utf8.Valid(verb) && Utf8.Valid(target) && Utf8.Valid(version)
    requires IsOrdering(order, headers.Keys) && Readable(headers)
    requires BodyFramed(headers, body) && Utf8.Valid(body)
    ensures var text := RequestLineText(verb, target, version) + HeaderSectionText(headers, order) + body;
      Parse(text) == Success(Decoded(RawRequest(verb, target, version, LowerValues(headers), body), |text|))
  {
    var line := RequestLineText(verb, target, version);
    var s := line + HeaderSectionText(headers, order) + body;
    WrittenLineRead(verb, target, version, HeaderSectionText(headers, order), body);
    SectionReadBack(line, headers, body, order);
    AfterRequestLine(s, line, Message(headers, body, |s|));
  }

  /**
   * A verb outside the eight method names: the library rejects the written
   * request for its method, while the server decodes it with that verb.
   */
  lemma UnknownVerbKept(verb: string, target: string, version: string,
                        headers: map<string, string>, body: string, order: seq<string>)
    requires IsToken(verb) && IsToken(target) && IsToken(version) && !EndsInWhitespace(version)
    requires Utf8.Valid(verb) && Utf8.Valid(target) && Utf8.Valid(version)
    requires IsOrdering(order, headers.Keys) && Readable(headers)
    requires BodyFramed(headers, body) && Utf8.Valid(body)
    requires MethodFromToken(verb).None?
    ensures var text := RequestLineText(verb, target, version) + HeaderSectionText(headers, order) + body;
      && Request.Parse(text) == Failure(Rejected(InvalidMethod))
      && Parse(text) == Success(Decoded(RawRequest(verb, target, version, LowerValues(headers), body), |text|))
  {
    var line := RequestLineText(verb, target, version);
    var section := HeaderSectionText(headers, order);
    Request.UnknownVerbRejected(verb, target, version, section + body);
    assert line + section + body == line + (section + body);
    ServerReadBack(verb, target, version, headers, body, order);
  }

  /** Every header name and every header value of a decoded request is lower-case. */
  lemma HeadersLowered(s: string)
    ensures Parse(s).Success? ==> forall k :: k in Parse(s).value.request.headers ==>
      IsLower(k) && IsLower(Parse(s).value.request.headers[k])
  {
    ClassifyLowersValues();
    ClassifyNamesLower();
    assert NamesLowerCased(ClassifyLowered);
    MessageLowered(Classify, ClassifyLowered, s, LineEnd(s, 0));
    MessageNamesLower(ClassifyLowered, s, LineEnd(s, 0));
  }
}
