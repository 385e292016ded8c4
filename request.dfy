/**
 * The request decoder of the library (`HttpRequest::new`): the request line
 * is read and split on spaces into a method, a target and a version; the
 * header loop fills a map; a `content-length` entry makes it read that many
 * octets as the body. The input stream is an octet string; every place where
 * the source unwraps or panics is a DecodeFailure.
 */
module Request {
  import opened Wrappers
  import opened Text
  import Utf8
  import opened HttpTypes
  import opened Wire
  import opened HeaderMap

  datatype HttpRequest = HttpRequest(
    httpMethod: HttpMethod,
    target: string,
    httpVersion: string,
    headers: map<string, string>,
    body: string)

  /** A decoded request and the number of octets of the stream it consumed. */
  datatype Decoded = Decoded(request: HttpRequest, consumed: nat)

  /**
   * What `HttpRequest::new` makes of the stream s: the outcome of each
   * unwrap in the order the source performs them.
   */
  function Parse(s: string): (r: Result<Decoded, DecodeFailure>)
    ensures r.Success? ==> Utf8.Valid(s[..LineEnd(s, 0)]) && LineEnd(s, 0) <= r.value.consumed <= |s|
    ensures r.Success? ==> !EndsInWhitespace(r.value.request.httpVersion)
  {
    var e := LineEnd(s, 0);
    var line := s[..e];
    if !Utf8.Valid(line) then Failure(InvalidUtf8)
    else
      var tokens := Split(line, ' ');
      match MethodFromToken(tokens[0])
      case None => Failure(Rejected(InvalidMethod))
      case Some(m) =>
        if |tokens| < 2 then Failure(Rejected(InvalidTarget))
        else if |tokens| < 3 then Failure(Rejected(InvalidVersion))
        else match ReadMessage(Classify, s, e)
          case Failure(f) => Failure(f)
          case Success(msg) =>
            Success(Decoded(HttpRequest(m, tokens[1], TrimEnd(tokens[2]), msg.headers, msg.body), msg.next))
  }

  /**
   * `HttpRequest::new` over the stream `input`: read the request line,
   * then header lines until the end of the stream or a line without ": ",
   * then the body.
   */
  method Decode(input: string) returns (r: Result<Decoded, DecodeFailure>)
    ensures r == Parse(input)
  {
    var first := LineEnd(input, 0);
    var line := input[..first];
    if !Utf8.Valid(line) {
      return Failure(InvalidUtf8);
    }
    var tokens := Split(line, ' ');
    var verb := MethodFromToken(tokens[0]);
    if verb.None? {
      return Failure(Rejected(InvalidMethod));
    }
    if |tokens| < 2 {
      return Failure(Rejected(InvalidTarget));
    }
    if |tokens| < 3 {
      return Failure(Rejected(InvalidVersion));
    }
    var msg := TakeMessage(Classify, input, first);
    if msg.Failure? {
      return Failure(msg.error);
    }
    var request := HttpRequest(verb.value, tokens[1], TrimEnd(tokens[2]), msg.value.headers, msg.value.body);
    return Success(Decoded(request, msg.value.next));
  }

  /** Once the header loop has ended at cursor pos, the outcome is that of the body read there. */
  lemma AfterHeaders(s: string, first: nat, tokens: seq<string>, m: HttpMethod, seen: seq<Header>, pos: nat)
    requires first == LineEnd(s, 0) && Utf8.Valid(s[..first]) && tokens == Split(s[..first], ' ')
    requires MethodFromToken(tokens[0]) == Some(m) && |tokens| >= 3
    requires ScanHeaders(Classify, s, first, []) == Success(HeaderBlock(seen, pos))
    ensures pos <= |s|
    ensures var headers := InsertAll(seen, map[]);
      Parse(s) == match ReadBody(s, pos, headers)
        case Failure(f) => Failure(f)
        case Success(b) => Success(Decoded(HttpRequest(m, tokens[1], TrimEnd(tokens[2]), headers, b.body), b.next))
  {
  }

  // ---------------------------------------------------------------- properties

  /**
   * Rejections come from the request line only, in the order the source
   * checks it: an unknown first token is InvalidMethod, then a line with a
   * single token is InvalidTarget, then one with two tokens InvalidVersion.
   */
  lemma RequestLineRejections(s: string)
    ensures var line := s[..LineEnd(s, 0)];
      var tokens := Split(line, ' ');
      && (Parse(s) == Failure(Rejected(InvalidMethod)) <==>
           Utf8.Valid(line) && MethodFromToken(tokens[0]).None?)
      && (Parse(s) == Failure(Rejected(InvalidTarget)) <==>
           Utf8.Valid(line) && MethodFromToken(tokens[0]).Some? && |tokens| == 1)
      && (Parse(s) == Failure(Rejected(InvalidVersion)) <==>
           Utf8.Valid(line) && MethodFromToken(tokens[0]).Some? && |tokens| == 2)
      && (Parse(s).Failure? && Parse(s).error.Rejected? ==>
           Parse(s).error.error in {InvalidMethod, InvalidTarget, InvalidVersion})
  {
  }

  /** Every header name of a decoded request is lower-case. */
  lemma NamesLowered(s: string)
    ensures Parse(s).Success? ==> forall k :: k in Parse(s).value.request.headers ==> IsLower(k)
  {
    ClassifyNamesLower();
    MessageNamesLower(Classify, s, LineEnd(s, 0));
  }

  /** An empty stream is rejected: its request line is empty, and "" names no method. */
  lemma EmptyStreamRejected()
    ensures Parse("") == Failure(Rejected(InvalidMethod))
  {
    assert Split("", ' ') == [""];
  }

  /**
   * A lone method name that ends the stream is a known method, so the
   * missing target is what fails the decode.
   */
  lemma LoneTokenAtEnd(m: HttpMethod)
    ensures Parse(MethodName(m)) == Failure(Rejected(InvalidTarget))
  {
    var s := MethodName(m);
    MethodNameLetters(m);
    assert LineEnd(s, 0) == |s|;
    assert s[..|s|] == s;
    SplitWhole(s, ' ');
    Utf8.AsciiValid(s);
    MethodRoundTrip(m);
  }

  /**
   * A lone method name followed by a line break keeps the break in its
   * token, which then names no method.
   */
  lemma LoneTokenBeforeBreak(m: HttpMethod)
    ensures Parse(MethodName(m) + "\r\n") == Failure(Rejected(InvalidMethod))
  {
    var s := MethodName(m) + "\r\n";
    NameLine(m);
    WholeFirstLine(s);
    TokenWithBreak(s);
    RequestLineRejections(s);
  }

  /** A method name and CRLF form one complete ASCII line without spaces. */
  lemma NameLine(m: HttpMethod)
    ensures var s := MethodName(m) + "\r\n";
      && IsLine(s) && ' ' !in s
      && forall i :: 0 <= i < |s| ==> s[i] as int < 0x80
  {
    var n := MethodName(m);
    var s := n + "\r\n";
    MethodNameLetters(m);
    assert s[..|s| - 1] == n + "\r";
    forall i | 0 <= i < |s| ensures s[i] as int < 0x80 && s[i] != ' ' {
      if i < |n| {
        assert s[i] == n[i];
      }
    }
  }

  /** A token that ends in a line break names no method: every method name ends in a letter. */
  lemma TokenWithBreak(t: string)
    requires |t| > 0 && t[|t| - 1] == '\n'
    ensures MethodFromToken(t).None?
  {
    assert Lower(t)[|t| - 1] == '\n';
    var r := MethodFromToken(t);
    if r.Some? {
      NameEndsInLetter(r.value);
    }
  }

  /** The lower-cased method name ends in a letter. */
  lemma NameEndsInLetter(m: HttpMethod)
    ensures var l := Lower(MethodName(m)); |l| > 0 && 'a' <= l[|l| - 1] <= 'z'
  {
    MethodNameLetters(m);
  }

  /** A stream that is one complete ASCII line without spaces is its own request line and single token. */
  lemma WholeFirstLine(s: string)
    requires IsLine(s) && ' ' !in s
    requires forall i :: 0 <= i < |s| ==> s[i] as int < 0x80
    ensures LineEnd(s, 0) == |s| && s[..LineEnd(s, 0)] == s
    ensures Utf8.Valid(s) && Split(s, ' ') == [s]
  {
    assert s[0..|s|] == s;
    LineEndAt(s, 0, s);
    SplitWhole(s, ' ');
    Utf8.AsciiValid(s);
  }

  /**
   * A stream that starts with a well-formed request line (at least three
   * tokens, a known method) whose header loop reads the entries hs and
   * stops at cursor end: the method, the second token and the trimmed
   * third token make the request line of the result, the map holds the
   * entries inserted in order (so the last one for a name wins), and the
   * body is read at end. Wire.WrittenSection gives the loop's outcome for
   * header lines laid out after the request line.
   */
  lemma DecodeLayout(s: string, line: string, m: HttpMethod, hs: seq<Header>, end: nat)
    requires At(s, 0, line) && IsLine(line) && Utf8.Valid(line)
    requires |Split(line, ' ')| >= 3 && MethodFromToken(Split(line, ' ')[0]) == Some(m)
    requires ScanHeaders(Classify, s, |line|, []) == Success(HeaderBlock(hs, end))
    ensures end <= |s|
    ensures var tokens := Split(line, ' ');
      var headers := InsertAll(hs, map[]);
      Parse(s) == match ReadBody(s, end, headers)
        case Failure(f) => Failure(f)
        case Success(b) => Success(Decoded(HttpRequest(m, tokens[1], TrimEnd(tokens[2]), headers, b.body), b.next))
  {
    LineEndAt(s, 0, line);
    assert s[..|line|] == line;
    AfterHeaders(s, |line|, Split(line, ' '), m, hs, end);
  }

  /**
   * Decoding inverts writing: a request line made of a method name, a
   * target and a version, followed by a readable header map written as a
   * header section and a body that goes with the map (content-length
   * states its length, or neither is there), decodes to exactly that
   * method, target, version, map and body, and the whole text is consumed.
   */
  lemma RequestReadBack(m: HttpMethod, target: string, version: string,
                        headers: map<string, string>, body: string, order: seq<string>)
    requires IsToken(target) && IsToken(version) && !EndsInWhitespace(version)
    requires Utf8.Valid(target) && Utf8.Valid(version)
    requires IsOrdering(order, headers.Keys) && Readable(headers)
    requires BodyFramed(headers, body) && Utf8.Valid(body)
    ensures var text := RequestLineText(MethodName(m), target, version) + HeaderSectionText(headers, order) + body;
      Parse(text) == Success(Decoded(HttpRequest(m, target, version, headers, body), |text|))
  {
    var line := RequestLineText(MethodName(m), target, version);
    var s := line + HeaderSectionText(headers, order) + body;
    RequestLineRead(m, target, version, HeaderSectionText(headers, order), body);
    SectionReadBack(line, headers, body, order);
    AfterRequestLine(s, line, m, Message(headers, body, |s|));
  }

  /**
   * A request line whose first token names no method is rejected for its
   * method, whatever follows it.
   */
  lemma UnknownVerbRejected(verb: string, target: string, version: string, rest: string)
    requires IsToken(verb) && IsToken(target) && IsToken(version) && !EndsInWhitespace(version)
    requires Utf8.Valid(verb) && Utf8.Valid(target) && Utf8.Valid(version)
    requires MethodFromToken(verb).None?
    ensures Parse(RequestLineText(verb, target, version) + rest) == Failure(Rejected(InvalidMethod))
  {
    RequestLineValid(verb, target, version);
    RequestLineTokens(verb, target, version, rest);
  }

  /**
   * A request line written from a method, a target and a version, whatever
   * follows it, is read as the first line, is well-formed UTF-8, names the
   * method and splits into the method name, the target and the version
   * with its line break, which trimming removes.
   */
  lemma RequestLineRead(m: HttpMethod, target: string, version: string, section: string, body: string)
    requires IsToken(target) && IsToken(version) && !EndsInWhitespace(version)
    requires Utf8.Valid(target) && Utf8.Valid(version)
    ensures var line := RequestLineText(MethodName(m), target, version);
      var s := line + section + body;
      && LineEnd(s, 0) == |line| && s[..|line|] == line && Utf8.Valid(line)
      && Split(line, ' ') == [MethodName(m), target, version + "\r\n"]
      && MethodFromToken(MethodName(m)) == Some(m) && TrimEnd(version + "\r\n") == version
  {
    var verb := MethodName(m);
    var line := RequestLineText(verb, target, version);
    MethodNameLetters(m);
    Utf8.AsciiValid(verb);
    RequestLineValid(verb, target, version);
    MethodRoundTrip(m);
    RequestLineTokens(verb, target, version, section + body);
    assert line + section + body == line + (section + body);
  }

  /**
   * Once a request line with a known method and at least three tokens has
   * been read and the header loop and body read after it give msg, the
   * request holds the method, the second token, the trimmed third token and
   * what msg holds.
   */
  lemma AfterRequestLine(s: string, line: string, m: HttpMethod, msg: Message)
    requires LineEnd(s, 0) == |line| && s[..|line|] == line
    requires Utf8.Valid(line) && |Split(line, ' ')| >= 3 && MethodFromToken(Split(line, ' ')[0]) == Some(m)
    requires ReadMessage(Classify, s, |line|) == Success(msg)
    ensures var tokens := Split(line, ' ');
      Parse(s) == Success(Decoded(HttpRequest(m, tokens[1], TrimEnd(tokens[2]), msg.headers, msg.body), msg.next))
  {
  }
}
