/** The incremental HTTP request parser, one character at a time.  Characters from code 128 on
    stand for the bytes that are negative as C++ chars: not HTTP characters, not control
    characters, not special. */
module Http {
  import opened Common
  import opened Bits
  import D = Decimal

  const MAX_HTTP_REQUEST_LENGTH: nat := 1024
  const CONTENT_LENGTH_NAME: string := "Content-Length"

  datatype Tribool = False | True | Indeterminate

  datatype State =
    | MethodStart | Method | UriStart | Uri
    | HttpVersionH | HttpVersionT1 | HttpVersionT2 | HttpVersionP | HttpVersionSlash
    | HttpVersionMajorStart | HttpVersionMajor | HttpVersionMinorStart | HttpVersionMinor
    | ExpectingNewline1 | HeaderLineStart | HeaderLws | HeaderName | SpaceBeforeHeaderValue
    | HeaderValue | ExpectingNewline2 | ExpectingNewline3 | Content | ContentEnd

  datatype Header = Header(name: string, value: string)

  datatype Request = Request(meth: string, uri: string, major: int, minor: int, headers: seq<Header>, content: string)

  const EMPTY_REQUEST: Request := Request("", "", 0, 0, [], "")

  /* boost::lexical_cast to an unsigned 32-bit integer, which may throw. */
  type Cast = string -> Option<word>

  // ----- Character classes -----

  predicate IsChar(c: char) { c as int <= 127 }

  predicate IsCtl(c: char) { c as int <= 31 || c as int == 127 }

  predicate IsTspecial(c: char) {
    c in {'(', ')', '<', '>', '@', ',', ';', ':', '\\', '"', '/', '[', ']', '?', '=', '{', '}', ' ', '\t'}
  }

  predicate IsToken(c: char) { IsChar(c) && !IsCtl(c) && !IsTspecial(c) }

  predicate IsBlank(c: char) { c == ' ' || c == '\t' }

  function ToLower(c: char): char {
    if 'A' <= c <= 'Z' then 'a' + (c - 'A') else c
  }

  predicate HeadersEqual(a: string, b: string) {
    |a| == |b| && forall i :: 0 <= i < |a| ==> ToLower(a[i]) == ToLower(b[i])
  }

  /* The first Content-Length whose value can be read. */
  function FirstLength(cast: Cast, headers: seq<Header>): Option<word> {
    if |headers| == 0 then None
    else if HeadersEqual(headers[0].name, CONTENT_LENGTH_NAME) && cast(headers[0].value).Some? then
      cast(headers[0].value)
    else FirstLength(cast, headers[1..])
  }

  // ----- The transition function -----

  datatype Config = Config(state: State, contentLength: word, req: Request)

  const FRESH: Config := Config(MethodStart, 0, EMPTY_REQUEST)

  /* Appending to the name or the value of the last header; the states that do so always have one. */
  function AppendName(hs: seq<Header>, s: string): seq<Header> {
    if |hs| == 0 then hs
    else
      var n := |hs| - 1;
      hs[n := hs[n].(name := hs[n].name + s)]
  }

  function AppendValue(hs: seq<Header>, s: string): seq<Header> {
    if |hs| == 0 then hs
    else
      var n := |hs| - 1;
      hs[n := hs[n].(value := hs[n].value + s)]
  }

  function Go(k: Config, s: State): (Config, Tribool) {
    (k.(state := s), Indeterminate)
  }

  function Expect(k: Config, c: char, expected: char, s: State): (Config, Tribool) {
    if c == expected then Go(k, s) else (k, False)
  }

  function Step(cast: Cast, k: Config, c: char): (Config, Tribool) {
    var r := k.req;
    match k.state
    case MethodStart => if IsToken(c) then Go(k.(req := r.(meth := r.meth + [c])), Method) else (k, False)
    case Method =>
      if c == ' ' then Go(k, Uri)
      else if IsToken(c) then Go(k.(req := r.(meth := r.meth + [c])), Method)
      else (k, False)
    case UriStart => if IsCtl(c) then (k, False) else Go(k.(req := r.(uri := r.uri + [c])), Uri)
    case Uri =>
      if c == ' ' then Go(k, HttpVersionH)
      else if IsCtl(c) then (k, False)
      else Go(k.(req := r.(uri := r.uri + [c])), Uri)
    case HttpVersionH => Expect(k, c, 'H', HttpVersionT1)
    case HttpVersionT1 => Expect(k, c, 'T', HttpVersionT2)
    case HttpVersionT2 => Expect(k, c, 'T', HttpVersionP)
    case HttpVersionP => Expect(k, c, 'P', HttpVersionSlash)
    case HttpVersionSlash =>
      if c == '/' then Go(k.(req := r.(major := 0, minor := 0)), HttpVersionMajorStart) else (k, False)
    case HttpVersionMajorStart =>
      if D.IsDigit(c) then Go(k.(req := r.(major := D.Push(r.major, c))), HttpVersionMajor) else (k, False)
    case HttpVersionMajor =>
      if c == '.' then Go(k, HttpVersionMinorStart)
      else if D.IsDigit(c) then Go(k.(req := r.(major := D.Push(r.major, c))), HttpVersionMajor)
      else (k, False)
    case HttpVersionMinorStart =>
      if D.IsDigit(c) then Go(k.(req := r.(minor := D.Push(r.minor, c))), HttpVersionMinor) else (k, False)
    case HttpVersionMinor =>
      if c == '\r' then Go(k, ExpectingNewline1)
      else if D.IsDigit(c) then Go(k.(req := r.(minor := D.Push(r.minor, c))), HttpVersionMinor)
      else (k, False)
    case ExpectingNewline1 => Expect(k, c, '\n', HeaderLineStart)
    case HeaderLineStart =>
      if c == '\r' then Go(k, ExpectingNewline3)
      else if r.headers != [] && IsBlank(c) then Go(k, HeaderLws)
      else if IsToken(c) then Go(k.(req := r.(headers := r.headers + [Header([c], "")])), HeaderName)
      else (k, False)
    case HeaderLws =>
      if c == '\r' then Go(k, ExpectingNewline2)
      else if IsBlank(c) then Go(k, HeaderLws)
      else if IsCtl(c) then (k, False)
      else Go(k.(req := r.(headers := AppendValue(r.headers, [c]))), HeaderValue)
    case HeaderName =>
      if c == ':' then Go(k, SpaceBeforeHeaderValue)
      else if IsToken(c) then Go(k.(req := r.(headers := AppendName(r.headers, [c]))), HeaderName)
      else (k, False)
    case SpaceBeforeHeaderValue => Expect(k, c, ' ', HeaderValue)
    case HeaderValue =>
      if c == '\r' then Go(k, ExpectingNewline2)
      else if IsCtl(c) then (k, False)
      else Go(k.(req := r.(headers := AppendValue(r.headers, [c]))), HeaderValue)
    case ExpectingNewline2 => Expect(k, c, '\n', HeaderLineStart)
    case ExpectingNewline3 => if c == '\n' then EndOfHead(cast, k) else (k, False)
    case Content =>
      if |r.content| < k.contentLength then Go(k.(req := r.(content := r.content + [c])), Content)
      else if c == '\0' || c == '\n' then Go(k, ContentEnd)
      else (k, False)
    case ContentEnd => (k, if k.contentLength == |r.content| then True else False)
  }

  function EndOfHead(cast: Cast, k: Config): (Config, Tribool) {
    match FirstLength(cast, k.req.headers)
    case Some(n) =>
      if 0 < n < MAX_HTTP_REQUEST_LENGTH then Go(k.(contentLength := n), Content) else (k.(contentLength := 0), False)
    case None => (k.(contentLength := 0), False)
  }

  /* Consumes w, unless some verdict is false. */
  function Run(cast: Cast, k: Config, w: string): Option<Config>
    decreases |w|
  {
    if |w| == 0 then Some(k)
    else
      var (k', verdict) := Step(cast, k, w[0]);
      if verdict == False then None else Run(cast, k', w[1..])
  }

  lemma {:induction false} RunAppend(cast: Cast, k: Config, u: string, v: string)
    ensures Run(cast, k, u + v) ==
            match Run(cast, k, u)
            case None => None
            case Some(k') => Run(cast, k', v)
    decreases |u|
  {
    hide Step;
    if |u| == 0 {
      assert u + v == v;
    } else {
      assert (u + v)[1..] == u[1..] + v;
      var (k', verdict) := Step(cast, k, u[0]);
      if verdict != False {
        RunAppend(cast, k', u[1..], v);
      }
    }
  }

  // ----- States that loop, and what they do with the characters they keep -----

  predicate Stays(s: State, c: char) {
    match s
    case Method => IsToken(c)
    case Uri => !IsCtl(c) && c != ' '
    case HttpVersionMajor => D.IsDigit(c)
    case HttpVersionMinor => D.IsDigit(c)
    case HeaderLws => IsBlank(c)
    case HeaderName => IsToken(c)
    case HeaderValue => !IsCtl(c)
    case _ => false
  }

  predicate AllStay(s: State, w: string) {
    forall i :: 0 <= i < |w| ==> Stays(s, w[i])
  }

  function Absorb(k: Config, w: string): Config {
    var r := k.req;
    match k.state
    case Method => k.(req := r.(meth := r.meth + w))
    case Uri => k.(req := r.(uri := r.uri + w))
    case HttpVersionMajor => k.(req := r.(major := D.Accumulate(r.major, w)))
    case HttpVersionMinor => k.(req := r.(minor := D.Accumulate(r.minor, w)))
    case HeaderName => k.(req := r.(headers := AppendName(r.headers, w)))
    case HeaderValue => k.(req := r.(headers := AppendValue(r.headers, w)))
    case _ => k
  }

  lemma AbsorbNothing(k: Config)
    ensures Absorb(k, "") == k
  {
    var hs := k.req.headers;
    assert AppendName(hs, "") == hs && AppendValue(hs, "") == hs by {
      if |hs| > 0 {
        assert hs[|hs| - 1].name + "" == hs[|hs| - 1].name && hs[|hs| - 1].value + "" == hs[|hs| - 1].value;
      }
    }
    assert k.req.meth + "" == k.req.meth && k.req.uri + "" == k.req.uri;
  }

  lemma AbsorbTwice(k: Config, c: char, w: string)
    ensures Absorb(Absorb(k, [c]), w) == Absorb(k, [c] + w)
  {
    var r := k.req;
    assert r.meth + [c] + w == r.meth + ([c] + w) && r.uri + [c] + w == r.uri + ([c] + w);
    assert D.Accumulate(D.Accumulate(r.major, [c]), w) == D.Accumulate(r.major, [c] + w) by {
      assert ([c] + w)[1..] == w;
    }
    assert D.Accumulate(D.Accumulate(r.minor, [c]), w) == D.Accumulate(r.minor, [c] + w) by {
      assert ([c] + w)[1..] == w;
    }
    var hs := r.headers;
    if |hs| > 0 {
      var h := hs[|hs| - 1];
      assert h.name + [c] + w == h.name + ([c] + w) && h.value + [c] + w == h.value + ([c] + w);
    }
  }

  lemma StepStays(cast: Cast, k: Config, c: char)
    requires Stays(k.state, c)
    ensures Step(cast, k, c) == (Absorb(k, [c]), Indeterminate)
  {
  }

  lemma {:induction false} RunAbsorb(cast: Cast, k: Config, w: string)
    requires AllStay(k.state, w)
    ensures Run(cast, k, w) == Some(Absorb(k, w))
    decreases |w|
  {
    hide Step, Absorb, Stays;
    if |w| == 0 {
      AbsorbNothing(k);
    } else {
      StepStays(cast, k, w[0]);
      AbsorbState(k, [w[0]]);
      RunAbsorb(cast, Absorb(k, [w[0]]), w[1..]);
      AbsorbTwice(k, w[0], w[1..]);
      assert [w[0]] + w[1..] == w;
    }
  }

  lemma AbsorbState(k: Config, w: string)
    ensures Absorb(k, w).state == k.state
  {
  }
}
