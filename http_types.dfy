/**
 * The closed enumerations of the library: request methods with their
 * case-insensitive parser and upper-case rendering, the error kinds with
 * their messages, and the response statuses with their status-line text.
 */
module HttpTypes {
  import opened Wrappers
  import opened Text

  // ------------------------------------------------------------- methods

  datatype HttpMethod = Get | Head | Post | Put | Delete | Connect | Options | Trace

  /** Display for HttpMethod: the upper-case method name. */
  function MethodName(m: HttpMethod): (r: string)
    ensures |r| >= 3
  {
    match m
    case Get => "GET"
    case Head => "HEAD"
    case Post => "POST"
    case Put => "PUT"
    case Delete => "DELETE"
    case Connect => "CONNECT"
    case Options => "OPTIONS"
    case Trace => "TRACE"
  }

  /**
   * `HttpMethod::from`: the token is lower-cased and compared with the
   * eight method names; any other token is None (the source panics).
   */
  function MethodFromToken(t: string): (r: Option<HttpMethod>)
    ensures r.Some? ==> Lower(t) == Lower(MethodName(r.value))
  {
    var l := Lower(t);
    if l == "get" then LowerMethodName(Get); Some(Get)
    else if l == "head" then LowerMethodName(Head); Some(Head)
    else if l == "post" then LowerMethodName(Post); Some(Post)
    else if l == "put" then LowerMethodName(Put); Some(Put)
    else if l == "delete" then LowerMethodName(Delete); Some(Delete)
    else if l == "connect" then LowerMethodName(Connect); Some(Connect)
    else if l == "options" then LowerMethodName(Options); Some(Options)
    else if l == "trace" then LowerMethodName(Trace); Some(Trace)
    else None
  }

  /** The lower-case form of each method name is its match arm in MethodFromToken. */
  lemma LowerMethodName(m: HttpMethod)
    ensures Lower(MethodName(m)) == match m
      case Get => "get"
      case Head => "head"
      case Post => "post"
      case Put => "put"
      case Delete => "delete"
      case Connect => "connect"
      case Options => "options"
      case Trace => "trace"
  {
  }

  /** Method names are written in upper-case ASCII letters only. */
  lemma MethodNameLetters(m: HttpMethod)
    ensures forall i :: 0 <= i < |MethodName(m)| ==> 'A' <= MethodName(m)[i] <= 'Z'
  {
  }

  /** Parsing the rendering of a method gives the method back. */
  lemma MethodRoundTrip(m: HttpMethod)
    ensures MethodFromToken(MethodName(m)) == Some(m)
  {
    LowerMethodName(m);
  }

  /**
   * A token resolves to m exactly when it spells m's name in any mix of
   * letter case.
   */
  lemma MethodCaseInsensitive(t: string, m: HttpMethod)
    ensures MethodFromToken(t) == Some(m) <==> Lower(t) == Lower(MethodName(m))
  {
    if MethodFromToken(t) == Some(m) {
      LowerMethodName(m);
    }
    if Lower(t) == Lower(MethodName(m)) {
      MethodRoundTrip(m);
      assert MethodFromToken(t) == MethodFromToken(MethodName(m));
    }
  }

  /** A token is rejected exactly when it spells none of the eight names. */
  lemma MethodRejected(t: string)
    ensures MethodFromToken(t).None? <==> forall m: HttpMethod :: Lower(t) != Lower(MethodName(m))
  {
    if MethodFromToken(t).None? {
      forall m: HttpMethod ensures Lower(t) != Lower(MethodName(m)) {
        MethodCaseInsensitive(t, m);
      }
    } else {
      MethodCaseInsensitive(t, MethodFromToken(t).value);
    }
  }

  // -------------------------------------------------------------- errors

  datatype HttpError = InvalidMethod | InvalidTarget | InvalidVersion | InvalidHeader | InvalidUpgrade

  /** Display for HttpError. */
  function ErrorMessage(e: HttpError): (r: string)
    ensures |r| > 13 && r[..13] == "Invalid HTTP "
  {
    match e
    case InvalidMethod => "Invalid HTTP method"
    case InvalidTarget => "Invalid HTTP target"
    case InvalidVersion => "Invalid HTTP version"
    case InvalidHeader => "Invalid HTTP header"
    case InvalidUpgrade => "Invalid HTTP upgrade"
  }

  /** Different error kinds are told apart by their messages. */
  lemma ErrorMessageInjective(e1: HttpError, e2: HttpError)
    requires ErrorMessage(e1) == ErrorMessage(e2)
    ensures e1 == e2
  {
    var m1, m2 := ErrorMessage(e1), ErrorMessage(e2);
    assert m1[13..] == m2[13..];
  }

  // ------------------------------------------------------------ statuses

  datatype HttpStatus = SwitchingProtocols | Ok | BadRequest | NotFound

  /** The numeric status code each variant stands for. */
  function StatusCode(s: HttpStatus): nat
  {
    match s
    case SwitchingProtocols => 101
    case Ok => 200
    case BadRequest => 400
    case NotFound => 404
  }

  /** Display for HttpStatus: "<code> <reason phrase>". */
  function StatusText(s: HttpStatus): (r: string)
    ensures |r| > 4 && AllDigits(r[..3]) && r[3] == ' '
    ensures '\n' !in r
  {
    match s
    case SwitchingProtocols => "101 Switching Protocols"
    case Ok => "200 OK"
    case BadRequest => "400 Bad Request"
    case NotFound => "404 Not Found"
  }

  /** Each status text starts with the decimal form of its status code. */
  lemma StatusTextCode(s: HttpStatus)
    ensures StatusText(s)[..3] == Decimal(StatusCode(s))
  {
    var code := StatusCode(s);
    assert Decimal(code / 10) == Decimal(code / 100) + [DigitChar(code / 10 % 10)];
    assert Decimal(code) == Decimal(code / 10) + [DigitChar(code % 10)];
  }

  /** Different statuses render different status texts. */
  lemma StatusTextInjective(s1: HttpStatus, s2: HttpStatus)
    requires StatusText(s1) == StatusText(s2)
    ensures s1 == s2
  {
    assert StatusText(s1)[..3] == StatusText(s2)[..3];
  }
}
