/** The parser and the request it fills, as objects updated one character at a time. */
module HttpParsing {
  import opened Bits
  import opened Common
  import opened Http
  import opened HttpGrammar
  import opened HttpProperties

  class HttpRequest {
    var meth: string
    var uri: string
    var major: int
    var minor: int
    var headers: seq<Header>
    var content: string

    function Value(): Request
      reads this
    {
      Request(meth, uri, major, minor, headers, content)
    }

    constructor ()
      ensures Value() == EMPTY_REQUEST
    {
      meth, uri, major, minor, headers, content := "", "", 0, 0, [], "";
    }

    method Reset()
      modifies this
      ensures Value() == EMPTY_REQUEST
    {
      meth, uri, major, minor, headers, content := "", "", 0, 0, [], "";
    }
  }

  class HttpRequestParser {
    const cast: Cast
    var contentLength: word
    var state: State

    constructor (cast: Cast)
      ensures this.cast == cast && state == MethodStart && contentLength == 0
    {
      this.cast := cast;
      state, contentLength := MethodStart, 0;
    }

    ghost function Now(req: HttpRequest): Config
      reads this, req
    {
      Config(state, contentLength, req.Value())
    }

    method Reset()
      modifies this
      ensures state == MethodStart && contentLength == 0
    {
      contentLength := 0;
      state := MethodStart;
    }

    method ParseContentLength(headers: seq<Header>) returns (ok: bool, length: word)
      ensures ok <==> FirstLength(cast, headers).Some?
      ensures ok ==> length == FirstLength(cast, headers).value
    {
      ok, length := false, 0;
      var i := 0;
      while i < |headers|
        invariant i <= |headers| && !ok
        invariant FirstLength(cast, headers[i..]) == FirstLength(cast, headers)
      {
        assert headers[i..][1..] == headers[i + 1..];
        if HeadersEqual(headers[i].name, CONTENT_LENGTH_NAME) {
          var value := cast(headers[i].value);
          if value.Some? {
            return true, value.value;
          }
        }
        i := i + 1;
      }
    }

    /** One character of input. */
    method Consume(req: HttpRequest, input: char) returns (verdict: Tribool)
      modifies this, req
      ensures (Now(req), verdict) == Step(cast, old(Now(req)), input)
    {
      match state {
        case MethodStart =>
          if !IsChar(input) || IsCtl(input) || IsTspecial(input) {
            return False;
          }
          state := Method;
          req.meth := req.meth + [input];
          return Indeterminate;
        case Method =>
          if input == ' ' {
            state := Uri;
          } else if !IsChar(input) || IsCtl(input) || IsTspecial(input) {
            return False;
          } else {
            req.meth := req.meth + [input];
          }
          return Indeterminate;
        case UriStart =>
          if IsCtl(input) {
            return False;
          }
          state := Uri;
          req.uri := req.uri + [input];
          return Indeterminate;
        case Uri =>
          if input == ' ' {
            state := HttpVersionH;
          } else if IsCtl(input) {
            return False;
          } else {
            req.uri := req.uri + [input];
          }
          return Indeterminate;
        case HttpVersionH =>
          verdict := Expected(input, 'H', HttpVersionT1);
        case HttpVersionT1 =>
          verdict := Expected(input, 'T', HttpVersionT2);
        case HttpVersionT2 =>
          verdict := Expected(input, 'T', HttpVersionP);
        case HttpVersionP =>
          verdict := Expected(input, 'P', HttpVersionSlash);
        case HttpVersionSlash =>
          if input != '/' {
            return False;
          }
          req.major, req.minor := 0, 0;
          state := HttpVersionMajorStart;
          return Indeterminate;
        case HttpVersionMajorStart =>
          if !D.IsDigit(input) {
            return False;
          }
          req.major := D.Push(req.major, input);
          state := HttpVersionMajor;
          return Indeterminate;
        case HttpVersionMajor =>
          if input == '.' {
            state := HttpVersionMinorStart;
          } else if D.IsDigit(input) {
            req.major := D.Push(req.major, input);
          } else {
            return False;
          }
          return Indeterminate;
        case HttpVersionMinorStart =>
          if !D.IsDigit(input) {
            return False;
          }
          req.minor := D.Push(req.minor, input);
          state := HttpVersionMinor;
          return Indeterminate;
        case HttpVersionMinor =>
          if input == '\r' {
            state := ExpectingNewline1;
          } else if D.IsDigit(input) {
            req.minor := D.Push(req.minor, input);
          } else {
            return False;
          }
          return Indeterminate;
        case ExpectingNewline1 =>
          verdict := Expected(input, '\n', HeaderLineStart);
        case HeaderLineStart =>
          if input == '\r' {
            state := ExpectingNewline3;
          } else if req.headers != [] && (input == ' ' || input == '\t') {
            state := HeaderLws;
          } else if !IsChar(input) || IsCtl(input) || IsTspecial(input) {
            return False;
          } else {
            req.headers := req.headers + [Header([input], "")];
            state := HeaderName;
          }
          return Indeterminate;
        case HeaderLws =>
          if input == '\r' {
            state := ExpectingNewline2;
          } else if input == ' ' || input == '\t' {
          } else if IsCtl(input) {
            return False;
          } else {
            state := HeaderValue;
            req.headers := AppendValue(req.headers, [input]);
          }
          return Indeterminate;
        case HeaderName =>
          if input == ':' {
            state := SpaceBeforeHeaderValue;
          } else if !IsChar(input) || IsCtl(input) || IsTspecial(input) {
            return False;
          } else {
            req.headers := AppendName(req.headers, [input]);
          }
          return Indeterminate;
        case SpaceBeforeHeaderValue =>
          verdict := Expected(input, ' ', HeaderValue);
        case HeaderValue =>
          if input == '\r' {
            state := ExpectingNewline2;
          } else if IsCtl(input) {
            return False;
          } else {
            req.headers := AppendValue(req.headers, [input]);
          }
          return Indeterminate;
        case ExpectingNewline2 =>
          verdict := Expected(input, '\n', HeaderLineStart);
        case ExpectingNewline3 =>
          if input != '\n' {
            return False;
          }
          var ok, length := ParseContentLength(req.headers);
          contentLength := 0;
          if !ok {
            return False;
          }
          if length == 0 || length >= MAX_HTTP_REQUEST_LENGTH {
            return False;
          }
          contentLength := length;
          state := Content;
          return Indeterminate;
        case Content =>
          if |req.content| < contentLength {
            req.content := req.content + [input];
            return Indeterminate;
          }
          if input == '\0' || input == '\n' {
            state := ContentEnd;
            return Indeterminate;
          }
          return False;
        case ContentEnd =>
          return if contentLength == |req.content| then True else False;
      }
    }

    /* The states that wait for one particular character. */
    method Expected(input: char, wanted: char, next: State) returns (verdict: Tribool)
      modifies this`state
      ensures state == (if input == wanted then next else old(state))
      ensures verdict == (if input == wanted then Indeterminate else False)
    {
      if input == wanted {
        state := next;
        return Indeterminate;
      }
      return False;
    }

    /** parse: at most one character of data is consumed, the verdict of consume is discarded, and the
        result is read off the lengths. */
    method Parse(req: HttpRequest, data: string, begin: nat) returns (result: Tribool, next: nat)
      requires begin <= |data|
      modifies this, req
      ensures next == (if begin < |data| then begin + 1 else begin)
      ensures Now(req) == if begin < |data| then Step(cast, old(Now(req)), data[begin]).0 else old(Now(req))
      ensures result == Report(Now(req))
    {
      next := begin;
      if next != |data| {
        var discarded := Consume(req, data[next]);
        next := next + 1;
      }
      result := False;
      if contentLength > 0 && |req.content| == contentLength {
        result := True;
      } else if contentLength > 0 && |req.content| < contentLength {
        result := Indeterminate;
      }
    }
  }

  /** A caller that keeps handing the rest of the data to parse until it reports true, on the text of any
      well-formed request followed by anything, stops right after the content with exactly that request. */
  method ReadRequest(cast: Cast, ghost h: Head, ghost body: string, data: string) returns (req: HttpRequest, next: nat)
    requires Whole(cast, h, body) && Text(h) + body <= data
    ensures fresh(req) && req.Value() == Meaning(h).(content := body) && next == |Text(h) + body|
  {
    hide Step, Run, Text, Meaning, Report, FirstLength;
    req := new HttpRequest();
    var parser := new HttpRequestParser(cast);
    ghost var text := Text(h) + body;
    var result := False;
    next := 0;
    Timeline(cast, h, body, 0);
    SentenceAccepted(cast, h, body);
    TextNotEmpty(h);
    assert text[..0] == "" && Run(cast, FRESH, "") == Some(FRESH) by { RunEmpty(cast, FRESH); }
    while result != True
      invariant fresh(req) && fresh(parser) && parser.cast == cast
      invariant next <= |text| && Run(cast, FRESH, text[..next]) == Some(parser.Now(req))
      invariant result == Report(parser.Now(req))
      decreases |text| - next
    {
      Timeline(cast, h, body, next);
      Timeline(cast, h, body, next + 1);
      RunSnoc(cast, text, next);
      result, next := parser.Parse(req, data, next);
    }
    Timeline(cast, h, body, next);
    assert text[..|text|] == text;
  }

  /** Any data at all, handed to parse to its end whatever parse answers. */
  method ParseAll(cast: Cast, data: string) returns (req: HttpRequest, result: Tribool)
    ensures fresh(req) && req.Value() == Feed(cast, FRESH, data).req && result == Report(Feed(cast, FRESH, data))
  {
    hide Step, Feed, Report;
    req := new HttpRequest();
    var parser := new HttpRequestParser(cast);
    var next := 0;
    result := False;
    assert Feed(cast, FRESH, data[..0]) == FRESH && Report(FRESH) == False by { FedNothing(cast); }
    while next < |data|
      invariant fresh(req) && fresh(parser) && parser.cast == cast
      invariant next <= |data| && Feed(cast, FRESH, data[..next]) == parser.Now(req)
      invariant result == Report(parser.Now(req))
    {
      FeedSnoc(cast, data, next);
      result, next := parser.Parse(req, data, next);
    }
    assert data[..|data|] == data;
  }

  lemma FedNothing(cast: Cast)
    ensures Feed(cast, FRESH, "") == FRESH && Report(FRESH) == False
  {
  }

  lemma FeedSnoc(cast: Cast, w: string, i: nat)
    requires i < |w|
    ensures Feed(cast, FRESH, w[..i + 1]) == Step(cast, Feed(cast, FRESH, w[..i]), w[i]).0
  {
    hide Step;
    assert w[..i + 1] == w[..i] + [w[i]];
    FeedAppend(cast, FRESH, w[..i], [w[i]]);
    FeedFirst(cast, Feed(cast, FRESH, w[..i]), w[i], "");
    assert [w[i]] + "" == [w[i]];
  }

  lemma TextNotEmpty(h: Head)
    ensures |Text(h)| > 0
  {
  }

  lemma RunSnoc(cast: Cast, w: string, i: nat)
    requires i < |w| && Run(cast, FRESH, w[..i]).Some? && Run(cast, FRESH, w[..i + 1]).Some?
    ensures Run(cast, FRESH, w[..i + 1]).value == Step(cast, Run(cast, FRESH, w[..i]).value, w[i]).0
  {
    hide Step;
    assert w[..i + 1] == w[..i] + [w[i]];
    RunAppend(cast, FRESH, w[..i], [w[i]]);
  }
}
