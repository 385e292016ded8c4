/**
 * The response builder of the library: `HttpResponse` holds a status, a
 * header map and a body; `add_header` and `add_body` update them in place,
 * and Display writes the status line, one "name: value" line per map
 * entry in the map's iteration order, a blank line and the body.
 */
module Response {
  import opened Wrappers
  import opened Text
  import Utf8
  import opened HttpTypes
  import opened Wire
  import opened HeaderMap

  /**
   * The first line of every response, "HTTP/1.1 <code> <reason>\r\n": one
   * complete line that starts with the protocol version and then the three
   * digits of the status code.
   */
  function StatusLine(status: HttpStatus): (r: string)
    ensures |r| > 12 && IsLine(r)
    ensures r[..9] == "HTTP/1.1 "
    ensures r[9..12] == Decimal(StatusCode(status))
  {
    StatusTextCode(status);
    VersionLine(StatusText(status));
    "HTTP/1.1 " + StatusText(status) + "\r\n"
  }

  /** "HTTP/1.1 " and a text without line breaks, then CRLF, is one complete line. */
  lemma VersionLine(t: string)
    requires |t| >= 3 && '\n' !in t
    ensures var line := "HTTP/1.1 " + t + "\r\n";
      IsLine(line) && line[..9] == "HTTP/1.1 " && line[9..12] == t[..3]
  {
    var line := "HTTP/1.1 " + t + "\r\n";
    assert line[..|line| - 1] == "HTTP/1.1 " + t + "\r";
  }

  /**
   * The text Display writes when the map is visited in the given order: it
   * starts with the status line and ends with the blank line's line break
   * and the body.
   */
  function Rendering(status: HttpStatus, headers: map<string, string>, body: string, order: seq<string>): (r: string)
    requires forall k :: k in order ==> k in headers
    ensures |StatusLine(status)| + 2 + |body| <= |r|
    ensures r[..|StatusLine(status)|] == StatusLine(status)
    ensures r[|r| - |body| - 2..] == "\r\n" + body
  {
    Framed(StatusLine(status), Concat(HeaderLines(headers, order)), "\r\n", body);
    StatusLine(status) + HeaderSectionText(headers, order) + body
  }

  class HttpResponse {
    var status: HttpStatus
    var headers: map<string, string>
    var body: string

    /** Every header name is lower-case: both ways of adding a header lower-case it. */
    predicate Valid()
      reads this
    {
      forall k :: k in headers ==> IsLower(k)
    }

    /** The body goes with the map: content-length states its length, or neither is there. */
    predicate LengthAgrees()
      reads this
    {
      BodyFramed(headers, body)
    }

    /** `HttpResponse::new`: the status, no headers and an empty body. */
    constructor(status: HttpStatus)
      ensures this.status == status && headers == map[] && body == ""
      ensures Valid() && LengthAgrees()
    {
      this.status := status;
      headers := map[];
      body := "";
    }

    /** `add_header`: the lower-cased key now maps to value, overwriting any earlier value. */
    method AddHeader(key: string, value: string)
      modifies this
      ensures headers == old(headers)[Lower(key) := value]
      ensures status == old(status) && body == old(body)
      ensures old(Valid()) ==> Valid()
      ensures Lower(key) != ContentLength && old(LengthAgrees()) ==> LengthAgrees()
    {
      headers := headers[Lower(key) := value];
    }

    /** `add_body`: the body is replaced and content-length set to its length. */
    method AddBody(b: string)
      modifies this
      ensures body == b
      ensures headers == old(headers)[ContentLength := Decimal(|b|)]
      ensures status == old(status)
      ensures old(Valid()) ==> Valid()
      ensures |b| <= UsizeMax ==> LengthAgrees()
    {
      body := b;
      headers := headers[ContentLength := Decimal(|body|)];
    }

    /**
     * Display: the status line, then one header line per entry as the
     * iteration over the map reaches it, then a blank line and the body.
     * The ghost `order` is the iteration order that was taken.
     */
    method Render() returns (text: string, ghost order: seq<string>)
      ensures IsOrdering(order, headers.Keys)
      ensures text == Rendering(status, headers, body, order)
    {
      var head := StatusLine(status);
      text := head;
      var remaining := headers.Keys;
      order := [];
      while remaining != {}
        invariant forall k :: k in headers <==> k in remaining || k in order
        invariant forall k :: k in order ==> k !in remaining
        invariant forall i, j :: 0 <= i < j < |order| ==> order[i] != order[j]
        invariant text == head + Concat(HeaderLines(headers, order))
        decreases |remaining|
      {
        var key :| key in remaining;
        var line := HeaderText(key, headers[key]);
        LinesSnoc(headers, order, key);
        ConcatSnoc(HeaderLines(headers, order), line);
        AppendAssoc(head, Concat(HeaderLines(headers, order)), line);
        text := text + line;
        order := order + [key];
        remaining := remaining - {key};
      }
      AppendAssoc(head, Concat(HeaderLines(headers, order)), "\r\n");
      text := text + "\r\n" + body;
    }
  }

  lemma AppendAssoc(a: string, b: string, c: string)
    ensures a + b + c == a + (b + c)
  {
  }

  // ---------------------------------------------------------- properties

  /** A text made of a head, some lines, a terminator and a body starts with the head and ends with the terminator and the body. */
  lemma Framed(head: string, lines: string, term: string, body: string)
    ensures var text := head + (lines + term) + body;
      text[..|head|] == head && text[|text| - |body| - |term|..] == term + body
  {
    var text := head + (lines + term) + body;
    assert text == (head + lines) + (term + body);
  }

  /**
   * What Display writes is read back by the library's own decoder loop:
   * after the status line, the header loop and the body read give back
   * exactly the header map and the body and stop at the end of the text,
   * whenever the headers are readable and the body goes with the map:
   * add_body leaves content-length equal to the body's length, and a
   * response never given a body has neither.
   */
  lemma ResponseReadBack(status: HttpStatus, headers: map<string, string>, body: string, order: seq<string>)
    requires IsOrdering(order, headers.Keys) && Readable(headers)
    requires BodyFramed(headers, body) && Utf8.Valid(body)
    ensures var text := Rendering(status, headers, body, order);
      ReadMessage(Classify, text, |StatusLine(status)|) == Success(Message(headers, body, |text|))
  {
    SectionReadBack(StatusLine(status), headers, body, order);
  }
}
