/** The language the parser accepts, as a grammar with a printer, and the proof that running the
    parser is the same as recognising and decomposing a sentence of that grammar. */
module HttpGrammar {
  import opened Common
  import opened Http

  // ----- Sentences -----

  /* A physical line of the header section: a field, or a continuation of the field above it. */
  datatype Line = Field(name: string, value: string) | Fold(blanks: string, text: string)

  datatype Head = Head(meth: string, uri: string, major: string, minor: string, lines: seq<Line>)

  predicate Tokens(s: string) { AllStay(Method, s) }
  predicate UriChars(s: string) { AllStay(Uri, s) }
  predicate ValueChars(s: string) { AllStay(HeaderValue, s) }
  predicate Blanks(s: string) { AllStay(HeaderLws, s) }

  predicate GoodLine(l: Line) {
    match l
    case Field(name, value) => |name| > 0 && Tokens(name) && ValueChars(value)
    case Fold(blanks, text) => |blanks| > 0 && Blanks(blanks) && ValueChars(text) && (|text| > 0 ==> !IsBlank(text[0]))
  }

  /* Continuation lines need a field above them. */
  predicate GoodLines(lines: seq<Line>, fieldAbove: bool) {
    |lines| > 0 ==> GoodLine(lines[0]) && (lines[0].Fold? ==> fieldAbove) && GoodLines(lines[1..], true)
  }

  predicate GoodHead(h: Head) {
    && |h.meth| > 0 && Tokens(h.meth) && UriChars(h.uri)
    && |h.major| > 0 && D.AllDigits(h.major) && |h.minor| > 0 && D.AllDigits(h.minor)
    && GoodLines(h.lines, false)
  }

  function LineText(l: Line): string {
    match l
    case Field(name, value) => name + ": " + value + "\r\n"
    case Fold(blanks, text) => blanks + text + "\r\n"
  }

  function LinesText(lines: seq<Line>): string {
    if |lines| == 0 then "" else LineText(lines[0]) + LinesText(lines[1..])
  }

  function RequestLine(h: Head): string {
    h.meth + " " + h.uri + " HTTP/" + h.major + "." + h.minor + "\r\n"
  }

  function Text(h: Head): string {
    RequestLine(h) + LinesText(h.lines) + "\r\n"
  }

  // ----- Their meaning: the request they describe -----

  /* A continuation adds its text to the value above it; the line break and the blanks vanish. */
  function AddLine(hs: seq<Header>, l: Line): seq<Header> {
    match l
    case Field(name, value) => hs + [Header(name, value)]
    case Fold(_, text) => AppendValue(hs, text)
  }

  function AddLines(hs: seq<Header>, lines: seq<Line>): seq<Header>
    decreases |lines|
  {
    if |lines| == 0 then hs else AddLines(AddLine(hs, lines[0]), lines[1..])
  }

  function Meaning(h: Head): Request {
    Request(h.meth, h.uri, D.Accumulate(0, h.major), D.Accumulate(0, h.minor), AddLines([], h.lines), "")
  }

  // ----- Every sentence is accepted -----

  /* One accepted character. */
  lemma RunStep(cast: Cast, k: Config, c: char, k': Config, rest: string)
    requires Step(cast, k, c) == (k', Indeterminate)
    ensures Run(cast, k, [c] + rest) == Run(cast, k', rest)
  {
    hide Step;
    assert ([c] + rest)[1..] == rest;
  }

  /* A looping state keeps u and then moves on with v. */
  lemma RunThen(cast: Cast, k: Config, u: string, v: string)
    requires AllStay(k.state, u)
    ensures Run(cast, k, u + v) == Run(cast, Absorb(k, u), v)
  {
    hide Step;
    RunAppend(cast, k, u, v);
    RunAbsorb(cast, k, u);
  }

  /* Entering a loop with the first character of u and staying there for the rest of it. */
  lemma RunEnter(cast: Cast, k: Config, loop: Config, u: string, tail: string)
    requires |u| > 0 && AllStay(loop.state, u[1..])
    requires Step(cast, k, u[0]) == (Absorb(loop, [u[0]]), Indeterminate)
    ensures Run(cast, k, u + tail) == Run(cast, Absorb(loop, u), tail)
  {
    hide Step, Run, Absorb, Stays;
    assert u + tail == [u[0]] + (u[1..] + tail);
    RunStep(cast, k, u[0], Absorb(loop, [u[0]]), u[1..] + tail);
    AbsorbState(loop, [u[0]]);
    RunThen(cast, Absorb(loop, [u[0]]), u[1..], tail);
    AbsorbTwice(loop, u[0], u[1..]);
    assert [u[0]] + u[1..] == u;
  }

  lemma RunCrLf(cast: Cast, k: Config, rest: string)
    requires k.state in {HttpVersionMinor, HeaderLws, HeaderValue}
    ensures Run(cast, k, "\r\n" + rest) == Run(cast, k.(state := HeaderLineStart), rest)
  {
    var mid := k.(state := if k.state == HttpVersionMinor then ExpectingNewline1 else ExpectingNewline2);
    assert "\r\n" + rest == ['\r'] + (['\n'] + rest);
    RunStep(cast, k, '\r', mid, ['\n'] + rest);
    RunStep(cast, mid, '\n', k.(state := HeaderLineStart), rest);
  }

  /* A header whose name is still to come. */
  function Opened(k: Config): Config {
    Config(HeaderName, k.contentLength, k.req.(headers := k.req.headers + [Header("", "")]))
  }

  lemma FilledName(k: Config, name: string)
    ensures Absorb(Opened(k), name)
            == Config(HeaderName, k.contentLength, k.req.(headers := k.req.headers + [Header(name, "")]))
  {
    assert "" + name == name;
  }

  lemma FilledValue(k: Config, hs: seq<Header>, name: string, value: string)
    requires k.state == HeaderValue && k.req.headers == hs + [Header(name, "")]
    ensures Absorb(k, value) == k.(req := k.req.(headers := hs + [Header(name, value)]))
  {
    assert "" + value == value;
  }

  lemma RunColon(cast: Cast, k: Config, rest: string)
    requires k.state == HeaderName
    ensures Run(cast, k, [':'] + ([' '] + rest)) == Run(cast, k.(state := HeaderValue), rest)
  {
    hide Run;
    RunStep(cast, k, ':', k.(state := SpaceBeforeHeaderValue), [' '] + rest);
    RunStep(cast, k.(state := SpaceBeforeHeaderValue), ' ', k.(state := HeaderValue), rest);
  }

  lemma RunField(cast: Cast, k: Config, name: string, value: string, rest: string)
    requires k.state == HeaderLineStart && GoodLine(Field(name, value))
    ensures Run(cast, k, LineText(Field(name, value)) + rest)
            == Run(cast, k.(req := k.req.(headers := AddLine(k.req.headers, Field(name, value)))), rest)
  {
    hide Run;
    var hs := k.req.headers;
    var tail3 := "\r\n" + rest;
    var tail2 := value + tail3;
    var tail1 := [':'] + ([' '] + tail2);
    assert LineText(Field(name, value)) + rest == name + tail1;
    FilledName(k, [name[0]]);
    RunEnter(cast, k, Opened(k), name, tail1);
    FilledName(k, name);
    var k1 := Config(HeaderName, k.contentLength, k.req.(headers := hs + [Header(name, "")]));
    RunColon(cast, k1, tail2);
    RunThen(cast, k1.(state := HeaderValue), value, tail3);
    FilledValue(k1.(state := HeaderValue), hs, name, value);
    RunCrLf(cast, Absorb(k1.(state := HeaderValue), value), rest);
  }

  lemma RunFold(cast: Cast, k: Config, blanks: string, text: string, rest: string)
    requires k.state == HeaderLineStart && k.req.headers != [] && GoodLine(Fold(blanks, text))
    ensures Run(cast, k, LineText(Fold(blanks, text)) + rest)
            == Run(cast, k.(req := k.req.(headers := AddLine(k.req.headers, Fold(blanks, text)))), rest)
  {
    hide Run;
    var k1, k2 := k.(state := HeaderLws), k.(state := HeaderValue);
    var tail2 := "\r\n" + rest;
    var tail1 := text + tail2;
    assert LineText(Fold(blanks, text)) + rest == blanks + tail1;
    RunEnter(cast, k, k1, blanks, tail1);
    if |text| == 0 {
      assert tail1 == tail2;
      AbsorbNothing(k2);
      RunCrLf(cast, k1, rest);
    } else {
      RunEnter(cast, k1, k2, text, tail2);
      RunCrLf(cast, Absorb(k2, text), rest);
    }
  }

  lemma {:induction false} RunLines(cast: Cast, k: Config, lines: seq<Line>, rest: string)
    requires k.state == HeaderLineStart && GoodLines(lines, k.req.headers != [])
    ensures Run(cast, k, LinesText(lines) + rest)
            == Run(cast, k.(req := k.req.(headers := AddLines(k.req.headers, lines))), rest)
    decreases |lines|
  {
    if |lines| == 0 {
      assert LinesText(lines) + rest == rest;
    } else {
      var tail := LinesText(lines[1..]) + rest;
      assert LinesText(lines) + rest == LineText(lines[0]) + tail;
      match lines[0] {
        case Field(name, value) => RunField(cast, k, name, value, tail);
        case Fold(blanks, text) => RunFold(cast, k, blanks, text, tail);
      }
      RunLines(cast, k.(req := k.req.(headers := AddLine(k.req.headers, lines[0]))), lines[1..], rest);
    }
  }

  lemma RunLiteral(cast: Cast, k: Config, rest: string)
    requires k.state == HttpVersionH && k.req.major == 0 && k.req.minor == 0
    ensures Run(cast, k, "HTTP/" + rest) == Run(cast, k.(state := HttpVersionMajorStart), rest)
  {
    hide Run;
    assert "HTTP/" + rest == ['H'] + (['T'] + (['T'] + (['P'] + (['/'] + rest))));
    RunStep(cast, k, 'H', k.(state := HttpVersionT1), ['T'] + (['T'] + (['P'] + (['/'] + rest))));
    RunStep(cast, k.(state := HttpVersionT1), 'T', k.(state := HttpVersionT2), ['T'] + (['P'] + (['/'] + rest)));
    RunStep(cast, k.(state := HttpVersionT2), 'T', k.(state := HttpVersionP), ['P'] + (['/'] + rest));
    RunStep(cast, k.(state := HttpVersionP), 'P', k.(state := HttpVersionSlash), ['/'] + rest);
    RunStep(cast, k.(state := HttpVersionSlash), '/', k.(state := HttpVersionMajorStart), rest);
  }

  /* One or more digits followed by something else. */
  lemma RunMajor(cast: Cast, k: Config, digits: string, rest: string)
    requires k.state == HttpVersionMajorStart && |digits| > 0 && D.AllDigits(digits)
    ensures Run(cast, k, digits + (['.'] + rest))
            == Run(cast, Config(HttpVersionMinorStart, k.contentLength,
                                k.req.(major := D.Accumulate(k.req.major, digits))), rest)
  {
    hide Run;
    var k1 := k.(state := HttpVersionMajor);
    RunEnter(cast, k, k1, digits, ['.'] + rest);
    RunStep(cast, Absorb(k1, digits), '.', Absorb(k1, digits).(state := HttpVersionMinorStart), rest);
  }

  lemma RunMinor(cast: Cast, k: Config, digits: string, rest: string)
    requires k.state == HttpVersionMinorStart && |digits| > 0 && D.AllDigits(digits)
    ensures Run(cast, k, digits + ("\r\n" + rest))
            == Run(cast, Config(HeaderLineStart, k.contentLength,
                                k.req.(minor := D.Accumulate(k.req.minor, digits))), rest)
  {
    hide Run;
    var k1 := k.(state := HttpVersionMinor);
    RunEnter(cast, k, k1, digits, "\r\n" + rest);
    RunCrLf(cast, Absorb(k1, digits), rest);
  }

  /* The configuration after the request line. */
  function AfterRequestLine(h: Head): Config {
    Config(HeaderLineStart, 0, Request(h.meth, h.uri, D.Accumulate(0, h.major), D.Accumulate(0, h.minor), [], ""))
  }

  lemma RunTarget(cast: Cast, meth: string, uri: string, rest: string)
    requires |meth| > 0 && Tokens(meth) && UriChars(uri)
    ensures Run(cast, FRESH, meth + ([' '] + (uri + ([' '] + rest))))
            == Run(cast, Config(HttpVersionH, 0, EMPTY_REQUEST.(meth := meth, uri := uri)), rest)
  {
    hide Run;
    var tail := uri + ([' '] + rest);
    RunEnter(cast, FRESH, FRESH.(state := Method), meth, [' '] + tail);
    assert "" + meth == meth && "" + uri == uri;
    var k1 := Config(Uri, 0, EMPTY_REQUEST.(meth := meth));
    RunStep(cast, k1.(state := Method), ' ', k1, tail);
    RunThen(cast, k1, uri, [' '] + rest);
    RunStep(cast, Absorb(k1, uri), ' ', Absorb(k1, uri).(state := HttpVersionH), rest);
  }

  lemma RunRequestLine(cast: Cast, h: Head, rest: string)
    requires |h.meth| > 0 && Tokens(h.meth) && UriChars(h.uri)
    requires |h.major| > 0 && D.AllDigits(h.major) && |h.minor| > 0 && D.AllDigits(h.minor)
    ensures Run(cast, FRESH, RequestLine(h) + rest) == Run(cast, AfterRequestLine(h), rest)
  {
    hide Run, AllStay;
    var tail4 := h.minor + ("\r\n" + rest);
    var tail3 := h.major + (['.'] + tail4);
    var tail2 := "HTTP/" + tail3;
    assert RequestLine(h) + rest == h.meth + ([' '] + (h.uri + ([' '] + tail2)));
    RunTarget(cast, h.meth, h.uri, tail2);
    var k2 := Config(HttpVersionH, 0, EMPTY_REQUEST.(meth := h.meth, uri := h.uri));
    RunLiteral(cast, k2, tail3);
    RunMajor(cast, k2.(state := HttpVersionMajorStart), h.major, tail4);
    RunMinor(cast, Config(HttpVersionMinorStart, 0, k2.req.(major := D.Accumulate(0, h.major))), h.minor, rest);
  }

  predicate LengthOk(cast: Cast, headers: seq<Header>) {
    FirstLength(cast, headers).Some? && 0 < FirstLength(cast, headers).value < MAX_HTTP_REQUEST_LENGTH
  }

  lemma RunEnd(cast: Cast, k: Config, rest: string)
    requires k.state == HeaderLineStart && LengthOk(cast, k.req.headers)
    ensures Run(cast, k, "\r\n" + rest)
            == Run(cast, Config(Content, FirstLength(cast, k.req.headers).value, k.req), rest)
  {
    hide Run;
    assert "\r\n" + rest == ['\r'] + (['\n'] + rest);
    RunStep(cast, k, '\r', k.(state := ExpectingNewline3), ['\n'] + rest);
    var k' := Config(Content, FirstLength(cast, k.req.headers).value, k.req);
    RunStep(cast, k.(state := ExpectingNewline3), '\n', k', rest);
  }

  lemma {:induction false} RunBody(cast: Cast, k: Config, body: string)
    requires k.state == Content && |k.req.content| + |body| <= k.contentLength
    ensures Run(cast, k, body) == Some(k.(req := k.req.(content := k.req.content + body)))
    decreases |body|
  {
    if |body| == 0 {
      assert k.req.content + body == k.req.content;
    } else {
      RunBody(cast, k.(req := k.req.(content := k.req.content + [body[0]])), body[1..]);
      assert k.req.content + [body[0]] + body[1..] == k.req.content + body;
    }
  }

  /** Every sentence with a usable Content-Length, followed by at most that much content, is accepted, and the
      request the parser builds is the one the sentence describes. */
  lemma SentenceAccepted(cast: Cast, h: Head, body: string)
    requires GoodHead(h) && LengthOk(cast, Meaning(h).headers)
    requires |body| <= FirstLength(cast, Meaning(h).headers).value
    ensures Run(cast, FRESH, Text(h) + body)
            == Some(Config(Content, FirstLength(cast, Meaning(h).headers).value, Meaning(h).(content := body)))
  {
    hide Run, FirstLength, RequestLine, LinesText, GoodLines, AddLines;
    var tail := LinesText(h.lines) + ("\r\n" + body);
    assert Text(h) + body == RequestLine(h) + tail;
    RunRequestLine(cast, h, tail);
    RunLines(cast, AfterRequestLine(h), h.lines, "\r\n" + body);
    var k := Config(HeaderLineStart, 0, Meaning(h));
    RunEnd(cast, k, body);
    RunBody(cast, Config(Content, FirstLength(cast, Meaning(h).headers).value, Meaning(h)), body);
    assert "" + body == body;
  }

  // ----- Only sentences are accepted -----

  /* Where a run leaves a looping state, and what it had kept until then. */
  lemma {:induction false} Leave(cast: Cast, k: Config, w: string, end: Config) returns (i: nat)
    requires Run(cast, k, w) == Some(end) && end.state != k.state
    ensures i < |w| && AllStay(k.state, w[..i]) && !Stays(k.state, w[i])
    ensures Run(cast, Absorb(k, w[..i]), w[i..]) == Some(end)
    decreases |w|
  {
    hide Step, Absorb, Stays;
    if !Stays(k.state, w[0]) {
      AbsorbNothing(k);
      assert w[..0] == "" && w[0..] == w;
      i := 0;
    } else {
      StepStays(cast, k, w[0]);
      AbsorbState(k, [w[0]]);
      var j := Leave(cast, Absorb(k, [w[0]]), w[1..], end);
      AbsorbTwice(k, w[0], w[1..][..j]);
      i := j + 1;
      assert [w[0]] + w[1..][..j] == w[..i] && w[1..][j..] == w[i..];
      forall m | 0 <= m < i ensures Stays(k.state, w[..i][m]) {
        if m > 0 { assert w[..i][m] == w[1..][..j][m - 1]; }
      }
    }
  }

  /* A run that goes on took its next character. */
  lemma Took(cast: Cast, k: Config, w: string, end: Config)
    requires Run(cast, k, w) == Some(end) && end.state != k.state
    ensures |w| > 0 && w == [w[0]] + w[1..]
    ensures Step(cast, k, w[0]).1 != False && Run(cast, Step(cast, k, w[0]).0, w[1..]) == Some(end)
  {
  }

  /* Entering a loop and leaving it again. */
  lemma ReadEnter(cast: Cast, k: Config, loop: Config, w: string, end: Config) returns (u: string, rest: string)
    requires Run(cast, k, w) == Some(end) && end.state != k.state && end.state != loop.state
    requires |w| > 0 && Step(cast, k, w[0]).0 == Absorb(loop, [w[0]])
    ensures |u| > 0 && u[0] == w[0] && AllStay(loop.state, u[1..]) && w == u + rest
    ensures |rest| > 0 && !Stays(loop.state, rest[0]) && Run(cast, Absorb(loop, u), rest) == Some(end)
    ensures Absorb(loop, u).state == loop.state
  {
    hide Step, Run, Absorb, Stays;
    Took(cast, k, w, end);
    AbsorbState(loop, [w[0]]);
    var i := Leave(cast, Absorb(loop, [w[0]]), w[1..], end);
    u, rest := [w[0]] + w[1..][..i], w[1..][i..];
    AbsorbTwice(loop, w[0], w[1..][..i]);
    AbsorbState(loop, u);
    assert w == u + rest && u[1..] == w[1..][..i];
  }

  lemma ReadCrLf(cast: Cast, k: Config, w: string, end: Config) returns (rest: string)
    requires k.state in {HttpVersionMinor, HeaderLws, HeaderValue}
    requires Run(cast, k, w) == Some(end) && end.state == Content && |w| > 0 && w[0] == '\r'
    ensures w == "\r\n" + rest && Run(cast, k.(state := HeaderLineStart), rest) == Some(end)
  {
    hide Run;
    Took(cast, k, w, end);
    var k1 := Step(cast, k, w[0]).0;
    Took(cast, k1, w[1..], end);
    rest := w[1..][1..];
    assert w == "\r\n" + rest;
  }

  lemma ReadName(cast: Cast, k: Config, w: string, end: Config) returns (name: string, rest: string)
    requires k.state == HeaderLineStart && Run(cast, k, w) == Some(end) && end.state == Content
    requires |w| > 0 && IsToken(w[0])
    ensures |name| > 0 && Tokens(name) && w == name + (": " + rest)
    ensures Run(cast, Config(HeaderValue, k.contentLength, k.req.(headers := k.req.headers + [Header(name, "")])), rest)
            == Some(end)
  {
    hide Run;
    FilledName(k, [w[0]]);
    var w1;
    name, w1 := ReadEnter(cast, k, Opened(k), w, end);
    FilledName(k, name);
    var k1 := Absorb(Opened(k), name);
    Took(cast, k1, w1, end);
    Took(cast, k1.(state := SpaceBeforeHeaderValue), w1[1..], end);
    rest := w1[1..][1..];
    assert w1 == ": " + rest;
  }

  lemma ReadValue(cast: Cast, k: Config, w: string, end: Config) returns (value: string, rest: string)
    requires k.state == HeaderValue && Run(cast, k, w) == Some(end) && end.state == Content
    ensures ValueChars(value) && w == value + "\r\n" + rest
    ensures Run(cast, Absorb(k, value).(state := HeaderLineStart), rest) == Some(end)
  {
    hide Run;
    var i := Leave(cast, k, w, end);
    value := w[..i];
    AbsorbState(k, value);
    Took(cast, Absorb(k, value), w[i..], end);
    rest := ReadCrLf(cast, Absorb(k, value), w[i..], end);
    assert w == value + ("\r\n" + rest);
  }

  lemma ReadField(cast: Cast, k: Config, w: string, end: Config) returns (l: Line, rest: string)
    requires k.state == HeaderLineStart && Run(cast, k, w) == Some(end) && end.state == Content
    requires |w| > 0 && IsToken(w[0])
    ensures l.Field? && GoodLine(l) && w == LineText(l) + rest
    ensures Run(cast, k.(req := k.req.(headers := AddLine(k.req.headers, l))), rest) == Some(end)
  {
    hide Run, IsToken, Absorb;
    var name, w1 := ReadName(cast, k, w, end);
    var k1 := Config(HeaderValue, k.contentLength, k.req.(headers := k.req.headers + [Header(name, "")]));
    var value;
    value, rest := ReadValue(cast, k1, w1, end);
    FilledValue(k1, k.req.headers, name, value);
    l := Field(name, value);
    assert w == name + (": " + (value + "\r\n" + rest)) == name + ": " + value + "\r\n" + rest;
  }

  lemma ReadFold(cast: Cast, k: Config, w: string, end: Config) returns (l: Line, rest: string)
    requires k.state == HeaderLineStart && Run(cast, k, w) == Some(end) && end.state == Content
    requires |w| > 0 && IsBlank(w[0])
    ensures l.Fold? && GoodLine(l) && w == LineText(l) + rest && k.req.headers != []
    ensures Run(cast, k.(req := k.req.(headers := AddLine(k.req.headers, l))), rest) == Some(end)
  {
    hide Run;
    var k1, k2 := k.(state := HeaderLws), k.(state := HeaderValue);
    Took(cast, k, w, end);
    var blanks, w2 := ReadEnter(cast, k, k1, w, end);
    Took(cast, k1, w2, end);
    if w2[0] == '\r' {
      AbsorbNothing(k2);
      rest := ReadCrLf(cast, k1, w2, end);
      l := Fold(blanks, "");
      assert blanks + "" == blanks;
    } else {
      var value;
      value, rest := ReadValue(cast, Absorb(k2, [w2[0]]), w2[1..], end);
      var text := [w2[0]] + value;
      AbsorbTwice(k2, w2[0], value);
      l := Fold(blanks, text);
      assert w == blanks + text + "\r\n" + rest;
    }
  }

  lemma {:induction false} EndIsFinal(cast: Cast, k: Config, w: string, end: Config)
    requires k.state == ContentEnd && Run(cast, k, w) == Some(end)
    ensures end.state == ContentEnd
    decreases |w|
  {
    if |w| == 0 {
    } else {
      EndIsFinal(cast, k, w[1..], end);
    }
  }

  lemma {:induction false} ReadBody(cast: Cast, k: Config, w: string, end: Config)
    requires k.state == Content && |k.req.content| <= k.contentLength
    requires Run(cast, k, w) == Some(end) && end.state == Content
    ensures |k.req.content| + |w| <= k.contentLength
    ensures end == k.(req := k.req.(content := k.req.content + w))
    decreases |w|
  {
    if |w| == 0 {
      assert k.req.content + w == k.req.content;
    } else if |k.req.content| < k.contentLength {
      ReadBody(cast, k.(req := k.req.(content := k.req.content + [w[0]])), w[1..], end);
      assert k.req.content + [w[0]] + w[1..] == k.req.content + w;
    } else {
      EndIsFinal(cast, k.(state := ContentEnd), w[1..], end);
    }
  }

  lemma ReadEnd(cast: Cast, k: Config, w: string, end: Config) returns (body: string)
    requires k.state == HeaderLineStart && k.req.content == "" && Run(cast, k, w) == Some(end) && end.state == Content
    requires |w| > 0 && w[0] == '\r'
    ensures w == "\r\n" + body && LengthOk(cast, k.req.headers) && |body| <= FirstLength(cast, k.req.headers).value
    ensures end == Config(Content, FirstLength(cast, k.req.headers).value, k.req.(content := body))
  {
    hide Run, FirstLength;
    Took(cast, k, w, end);
    Took(cast, k.(state := ExpectingNewline3), w[1..], end);
    body := w[1..][1..];
    assert w == "\r\n" + body;
    ReadBody(cast, Config(Content, FirstLength(cast, k.req.headers).value, k.req), body, end);
    assert "" + body == body;
  }

  lemma {:induction false} ReadLines(cast: Cast, k: Config, w: string, end: Config)
    returns (lines: seq<Line>, body: string)
    requires k.state == HeaderLineStart && k.req.content == "" && Run(cast, k, w) == Some(end) && end.state == Content
    ensures GoodLines(lines, k.req.headers != []) && w == LinesText(lines) + ("\r\n" + body)
    ensures var hs := AddLines(k.req.headers, lines);
            && LengthOk(cast, hs) && |body| <= FirstLength(cast, hs).value
            && end == Config(Content, FirstLength(cast, hs).value, k.req.(headers := hs, content := body))
    decreases |w|
  {
    hide Run, FirstLength, IsToken;
    Took(cast, k, w, end);
    if w[0] == '\r' {
      body := ReadEnd(cast, k, w, end);
      lines := [];
      assert "" + ("\r\n" + body) == w;
    } else {
      var l, rest;
      if IsBlank(w[0]) {
        l, rest := ReadFold(cast, k, w, end);
      } else {
        l, rest := ReadField(cast, k, w, end);
      }
      var more;
      more, body := ReadLines(cast, k.(req := k.req.(headers := AddLine(k.req.headers, l))), rest, end);
      lines := [l] + more;
      assert lines[1..] == more;
      assert w == LineText(l) + LinesText(more) + ("\r\n" + body);
    }
  }

  /* A state that waits for one character. */
  lemma TookExpected(cast: Cast, k: Config, c: char, next: State, w: string, end: Config) returns (rest: string)
    requires Run(cast, k, w) == Some(end) && end.state == Content && k.req.major == 0 && k.req.minor == 0
    requires (k.state, c, next) in {(HttpVersionH, 'H', HttpVersionT1), (HttpVersionT1, 'T', HttpVersionT2),
                                    (HttpVersionT2, 'T', HttpVersionP), (HttpVersionP, 'P', HttpVersionSlash),
                                    (HttpVersionSlash, '/', HttpVersionMajorStart)}
    ensures w == [c] + rest && Run(cast, k.(state := next), rest) == Some(end)
  {
    hide Run;
    Took(cast, k, w, end);
    rest := w[1..];
  }

  lemma ReadLiteral(cast: Cast, k: Config, w: string, end: Config) returns (rest: string)
    requires k.state == HttpVersionH && k.req.major == 0 && k.req.minor == 0
    requires Run(cast, k, w) == Some(end) && end.state == Content
    ensures w == "HTTP/" + rest && Run(cast, k.(state := HttpVersionMajorStart), rest) == Some(end)
  {
    hide Run;
    var w1 := TookExpected(cast, k, 'H', HttpVersionT1, w, end);
    var w2 := TookExpected(cast, k.(state := HttpVersionT1), 'T', HttpVersionT2, w1, end);
    var w3 := TookExpected(cast, k.(state := HttpVersionT2), 'T', HttpVersionP, w2, end);
    var w4 := TookExpected(cast, k.(state := HttpVersionP), 'P', HttpVersionSlash, w3, end);
    rest := TookExpected(cast, k.(state := HttpVersionSlash), '/', HttpVersionMajorStart, w4, end);
  }

  lemma ReadMajor(cast: Cast, k: Config, w: string, end: Config) returns (digits: string, rest: string)
    requires k.state == HttpVersionMajorStart && Run(cast, k, w) == Some(end) && end.state == Content
    ensures |digits| > 0 && D.AllDigits(digits) && w == digits + (['.'] + rest)
    ensures Run(cast, Config(HttpVersionMinorStart, k.contentLength,
                             k.req.(major := D.Accumulate(k.req.major, digits))), rest)
            == Some(end)
  {
    hide Run;
    var k1, w1 := k.(state := HttpVersionMajor), w;
    Took(cast, k, w, end);
    digits, w1 := ReadEnter(cast, k, k1, w, end);
    Took(cast, Absorb(k1, digits), w1, end);
    rest := w1[1..];
    assert w1 == ['.'] + rest;
  }

  lemma ReadMinor(cast: Cast, k: Config, w: string, end: Config) returns (digits: string, rest: string)
    requires k.state == HttpVersionMinorStart && Run(cast, k, w) == Some(end) && end.state == Content
    ensures |digits| > 0 && D.AllDigits(digits) && w == digits + ("\r\n" + rest)
    ensures Run(cast, Config(HeaderLineStart, k.contentLength,
                             k.req.(minor := D.Accumulate(k.req.minor, digits))), rest)
            == Some(end)
  {
    hide Run;
    var k1, w1 := k.(state := HttpVersionMinor), w;
    Took(cast, k, w, end);
    digits, w1 := ReadEnter(cast, k, k1, w, end);
    Took(cast, Absorb(k1, digits), w1, end);
    rest := ReadCrLf(cast, Absorb(k1, digits), w1, end);
  }

  /* A method or a URI, up to the blank after it. */
  lemma ReadWord(cast: Cast, k: Config, w: string, end: Config) returns (word: string, rest: string)
    requires k.state in {Method, Uri} && Run(cast, k, w) == Some(end) && end.state == Content
    ensures AllStay(k.state, word) && w == word + ([' '] + rest)
    ensures Run(cast, Absorb(k, word).(state := if k.state == Method then Uri else HttpVersionH), rest) == Some(end)
  {
    hide Run;
    var i := Leave(cast, k, w, end);
    word := w[..i];
    AbsorbState(k, word);
    Took(cast, Absorb(k, word), w[i..], end);
    rest := w[i..][1..];
    assert w == w[..i] + w[i..] && w[i..] == [' '] + rest;
  }

  lemma ReadMethod(cast: Cast, w: string, end: Config) returns (meth: string, rest: string)
    requires Run(cast, FRESH, w) == Some(end) && end.state == Content
    ensures |meth| > 0 && Tokens(meth) && w == meth + ([' '] + rest)
    ensures Run(cast, Config(Uri, 0, EMPTY_REQUEST.(meth := meth)), rest) == Some(end)
  {
    hide Run, IsToken;
    Took(cast, FRESH, w, end);
    assert "" + [w[0]] == [w[0]];
    var word;
    word, rest := ReadWord(cast, Config(Method, 0, EMPTY_REQUEST.(meth := [w[0]])), w[1..], end);
    meth := [w[0]] + word;
    assert w == [w[0]] + w[1..] && [w[0]] + (word + ([' '] + rest)) == meth + ([' '] + rest);
  }

  lemma ReadTarget(cast: Cast, w: string, end: Config) returns (meth: string, uri: string, rest: string)
    requires Run(cast, FRESH, w) == Some(end) && end.state == Content
    ensures |meth| > 0 && Tokens(meth) && UriChars(uri) && w == meth + ([' '] + (uri + ([' '] + rest)))
    ensures Run(cast, Config(HttpVersionH, 0, EMPTY_REQUEST.(meth := meth, uri := uri)), rest) == Some(end)
  {
    hide Run, AllStay;
    var w1;
    meth, w1 := ReadMethod(cast, w, end);
    uri, rest := ReadWord(cast, Config(Uri, 0, EMPTY_REQUEST.(meth := meth)), w1, end);
    assert "" + uri == uri;
  }

  lemma ReadVersion(cast: Cast, k: Config, w: string, end: Config) returns (major: string, minor: string, rest: string)
    requires k.state == HttpVersionH && k.req.major == 0 && k.req.minor == 0
    requires Run(cast, k, w) == Some(end) && end.state == Content
    ensures |major| > 0 && D.AllDigits(major) && |minor| > 0 && D.AllDigits(minor)
    ensures w == "HTTP/" + (major + (['.'] + (minor + ("\r\n" + rest))))
    ensures Run(cast, Config(HeaderLineStart, k.contentLength,
                             k.req.(major := D.Accumulate(0, major), minor := D.Accumulate(0, minor))), rest)
            == Some(end)
  {
    hide Run, D.AllDigits, D.Accumulate;
    var w2 := ReadLiteral(cast, k, w, end);
    var w3;
    major, w3 := ReadMajor(cast, k.(state := HttpVersionMajorStart), w2, end);
    var k3 := Config(HttpVersionMinorStart, k.contentLength, k.req.(major := D.Accumulate(0, major)));
    minor, rest := ReadMinor(cast, k3, w3, end);
  }

  lemma RequestLineParts(h: Head, rest: string)
    ensures RequestLine(h) + rest
            == h.meth + ([' '] + (h.uri + ([' '] + ("HTTP/" + (h.major + (['.'] + (h.minor + ("\r\n" + rest))))))))
  {
  }

  lemma TextBody(h: Head, body: string)
    ensures Text(h) + body == RequestLine(h) + (LinesText(h.lines) + ("\r\n" + body))
  {
    hide RequestLine, LinesText;
  }

  /** Whatever reaches the content state without a false verdict is a sentence followed by content. */
  lemma AcceptedIsSentence(cast: Cast, w: string, end: Config) returns (h: Head, body: string)
    requires Run(cast, FRESH, w) == Some(end) && end.state == Content
    ensures Describes(cast, w, end, h, body)
  {
    hide Run, FirstLength, AddLines, LinesText, RequestLine, Text, GoodLines, AllStay, LengthOk;
    hide D.AllDigits, D.Accumulate;
    var meth, uri, w1 := ReadTarget(cast, w, end);
    var k1 := Config(HttpVersionH, 0, EMPTY_REQUEST.(meth := meth, uri := uri));
    var major, minor, w2 := ReadVersion(cast, k1, w1, end);
    var r := k1.req.(major := D.Accumulate(0, major), minor := D.Accumulate(0, minor));
    var lines;
    lines, body := ReadLines(cast, Config(HeaderLineStart, 0, r), w2, end);
    h := Head(meth, uri, major, minor, lines);
    RequestLineParts(h, w2);
    TextBody(h, body);
  }

  /* w is the sentence h followed by body, h announces enough content, and k is where that leads. */
  predicate Describes(cast: Cast, w: string, k: Config, h: Head, body: string) {
    && GoodHead(h) && w == Text(h) + body
    && LengthOk(cast, Meaning(h).headers) && |body| <= FirstLength(cast, Meaning(h).headers).value
    && k == Config(Content, FirstLength(cast, Meaning(h).headers).value, Meaning(h).(content := body))
  }

  /** The parser reaches the content state without a false verdict exactly on the sentences whose first
      readable Content-Length lies in 1..1023, followed by at most that much content, and the request
      it has built by then is the decomposition of the sentence. */
  lemma AcceptedIff(cast: Cast, w: string, k: Config)
    ensures Run(cast, FRESH, w) == Some(k) && k.state == Content <==> exists h, body :: Describes(cast, w, k, h, body)
  {
    hide Run, FirstLength, AddLines, LinesText;
    if Run(cast, FRESH, w) == Some(k) && k.state == Content {
      var h, body := AcceptedIsSentence(cast, w, k);
    } else if h, body :| Describes(cast, w, k, h, body) {
      SentenceAccepted(cast, h, body);
    }
  }

  // ----- The decomposition is unique -----

  lemma {:induction false} SameSplit(s: State, u: string, v: string, u': string, v': string)
    requires AllStay(s, u) && AllStay(s, u') && |v| > 0 && |v'| > 0 && !Stays(s, v[0]) && !Stays(s, v'[0])
    requires u + v == u' + v'
    ensures u == u' && v == v'
  {
    hide Stays;
    assert (u + v)[|u|] == v[0] && (u' + v')[|u'|] == v'[0];
    assert |u| == |u'|;
    assert u == (u + v)[..|u|] && v == (u + v)[|u|..];
    assert u' == (u' + v')[..|u|] && v' == (u' + v')[|u|..];
  }

  lemma SameTail(p: string, a: string, b: string)
    requires p + a == p + b
    ensures a == b
  {
    assert a == (p + a)[|p|..] && b == (p + b)[|p|..];
  }

  lemma SameText(text: string, r: string, text': string, r': string)
    requires ValueChars(text) && ValueChars(text') && text + ("\r\n" + r) == text' + ("\r\n" + r')
    ensures text == text' && r == r'
  {
    SameSplit(HeaderValue, text, "\r\n" + r, text', "\r\n" + r');
    SameTail("\r\n", r, r');
  }

  lemma SameLine(l: Line, r: string, l': Line, r': string)
    requires GoodLine(l) && GoodLine(l') && LineText(l) + r == LineText(l') + r'
    ensures l == l' && r == r'
  {
    hide AllStay, LineText, GoodLine;
    LineStart(l);
    LineStart(l');
    assert (LineText(l) + r)[0] == LineText(l)[0] && (LineText(l') + r')[0] == LineText(l')[0];
    match l {
      case Field(_, _) => SameField(l, r, l', r');
      case Fold(_, _) => SameFold(l, r, l', r');
    }
  }

  lemma LineStart(l: Line)
    requires GoodLine(l)
    ensures |LineText(l)| > 0
    ensures if l.Field? then IsToken(LineText(l)[0]) else IsBlank(LineText(l)[0])
  {
    assert LineText(l)[0] == if l.Field? then l.name[0] else l.blanks[0];
  }

  lemma FieldParts(l: Line, r: string)
    requires l.Field?
    ensures LineText(l) + r == l.name + (": " + (l.value + ("\r\n" + r)))
  {
  }

  lemma SameField(l: Line, r: string, l': Line, r': string)
    requires GoodLine(l) && GoodLine(l') && l.Field? && l'.Field? && LineText(l) + r == LineText(l') + r'
    ensures l == l' && r == r'
  {
    var tail, tail' := l.value + ("\r\n" + r), l'.value + ("\r\n" + r');
    FieldParts(l, r);
    FieldParts(l', r');
    hide LineText;
    SameSplit(HeaderName, l.name, ": " + tail, l'.name, ": " + tail');
    SameTail(": ", tail, tail');
    SameText(l.value, r, l'.value, r');
  }

  lemma SameFold(l: Line, r: string, l': Line, r': string)
    requires GoodLine(l) && GoodLine(l') && l.Fold? && l'.Fold? && LineText(l) + r == LineText(l') + r'
    ensures l == l' && r == r'
  {
    var tail, tail' := l.text + ("\r\n" + r), l'.text + ("\r\n" + r');
    assert LineText(l) + r == l.blanks + tail && LineText(l') + r' == l'.blanks + tail';
    SameSplit(HeaderLws, l.blanks, tail, l'.blanks, tail');
    SameText(l.text, r, l'.text, r');
  }

  lemma {:induction false} SameLines(ls: seq<Line>, r: string, above: bool, ls': seq<Line>, r': string, above': bool)
    requires GoodLines(ls, above) && GoodLines(ls', above')
    requires LinesText(ls) + ("\r\n" + r) == LinesText(ls') + ("\r\n" + r')
    ensures ls == ls' && r == r'
    decreases |ls|
  {
    hide GoodLine, LineText;
    LinesStart(ls, r, above);
    LinesStart(ls', r', above');
    if |ls| == 0 {
      assert "" + ("\r\n" + r) == "\r\n" + r && "" + ("\r\n" + r') == "\r\n" + r';
      SameTail("\r\n", r, r');
    } else {
      var tail, tail' := LinesText(ls[1..]) + ("\r\n" + r), LinesText(ls'[1..]) + ("\r\n" + r');
      assert LinesText(ls) + ("\r\n" + r) == LineText(ls[0]) + tail;
      assert LinesText(ls') + ("\r\n" + r') == LineText(ls'[0]) + tail';
      SameLine(ls[0], tail, ls'[0], tail');
      SameLines(ls[1..], r, true, ls'[1..], r', true);
      assert ls == [ls[0]] + ls[1..] && ls' == [ls'[0]] + ls'[1..];
    }
  }

  /* The header section ends at the first line that starts with a carriage return. */
  lemma LinesStart(ls: seq<Line>, r: string, above: bool)
    requires GoodLines(ls, above)
    ensures (LinesText(ls) + ("\r\n" + r))[0] == '\r' <==> |ls| == 0
  {
    if |ls| > 0 {
      var t := LineText(ls[0]);
      assert t[0] == if ls[0].Field? then ls[0].name[0] else ls[0].blanks[0];
      assert (LinesText(ls) + ("\r\n" + r))[0] == t[0];
    }
  }

  /** The grammar is unambiguous, and no sentence continues another: a text starts with at most one sentence,
      which decomposes in exactly one way. */
  lemma SameHead(h: Head, r: string, h': Head, r': string)
    requires GoodHead(h) && GoodHead(h') && Text(h) + r == Text(h') + r'
    ensures h == h' && r == r'
  {
    var t4, t4' := LinesText(h.lines) + ("\r\n" + r), LinesText(h'.lines) + ("\r\n" + r');
    var t3, t3' := h.minor + ("\r\n" + t4), h'.minor + ("\r\n" + t4');
    var t2, t2' := h.major + ("." + t3), h'.major + ("." + t3');
    HeadParts(h, r);
    HeadParts(h', r');
    hide LinesText, GoodLines, Text;
    SameTarget(h.meth, h.uri, "HTTP/" + t2, h'.meth, h'.uri, "HTTP/" + t2');
    SameTail("HTTP/", t2, t2');
    SameSplit(HttpVersionMajor, h.major, "." + t3, h'.major, "." + t3');
    SameTail(".", t3, t3');
    SameSplit(HttpVersionMinor, h.minor, "\r\n" + t4, h'.minor, "\r\n" + t4');
    SameTail("\r\n", t4, t4');
    SameLines(h.lines, r, false, h'.lines, r', false);
  }

  lemma SameTarget(m: string, u: string, t: string, m': string, u': string, t': string)
    requires Tokens(m) && Tokens(m') && UriChars(u) && UriChars(u')
    requires m + (" " + (u + (" " + t))) == m' + (" " + (u' + (" " + t')))
    ensures m == m' && u == u' && t == t'
  {
    SameSplit(Method, m, " " + (u + (" " + t)), m', " " + (u' + (" " + t')));
    SameTail(" ", u + (" " + t), u' + (" " + t'));
    SameSplit(Uri, u, " " + t, u', " " + t');
    SameTail(" ", t, t');
  }

  lemma HeadParts(h: Head, r: string)
    ensures Text(h) + r
            == h.meth + (" " + (h.uri + (" " + ("HTTP/" + (h.major + ("." +
               (h.minor + ("\r\n" + (LinesText(h.lines) + ("\r\n" + r))))))))))
  {
    hide LinesText;
  }
}
