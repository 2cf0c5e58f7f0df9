/** Properties of whole runs of the HTTP parser: its state invariant, printing and parsing requests,
    folded headers, and what the byte-by-byte driver reports at each point of a request. */
module HttpProperties {
  import opened Common
  import opened Http
  import opened HttpGrammar

  // ----- What holds in every reachable state -----

  predicate NeedsHeader(s: State) {
    s in {HeaderLws, HeaderName, SpaceBeforeHeaderValue, HeaderValue, ExpectingNewline2}
  }

  predicate Inv(k: Config) {
    && |k.req.content| <= k.contentLength < MAX_HTTP_REQUEST_LENGTH
    && (k.contentLength > 0 <==> k.state in {Content, ContentEnd})
    && (k.state == ContentEnd ==> |k.req.content| == k.contentLength)
    && (NeedsHeader(k.state) ==> k.req.headers != [])
    && k.state != UriStart
  }

  /** Every step keeps the invariant, whatever its verdict; a false verdict leaves parser and request
      as they were; and the verdict is true exactly after the byte that closed the content. */
  lemma StepKeepsInv(cast: Cast, k: Config, c: char)
    requires Inv(k)
    ensures var (k', verdict) := Step(cast, k, c);
            && Inv(k')
            && (verdict == False ==> k' == k)
            && (verdict == True <==> k.state == ContentEnd)
  {
  }

  lemma {:induction false} RunKeepsInv(cast: Cast, k: Config, w: string)
    requires Inv(k) && Run(cast, k, w).Some?
    ensures Inv(Run(cast, k, w).value)
    decreases |w|
  {
    hide Step, Inv;
    if |w| == 0 {
    } else {
      StepKeepsInv(cast, k, w[0]);
      RunKeepsInv(cast, Step(cast, k, w[0]).0, w[1..]);
    }
  }

  /* All characters are fed, whether or not some are rejected. */
  function Feed(cast: Cast, k: Config, w: string): Config
    decreases |w|
  {
    if |w| == 0 then k else Feed(cast, Step(cast, k, w[0]).0, w[1..])
  }

  lemma {:induction false} FeedKeepsInv(cast: Cast, k: Config, w: string)
    requires Inv(k)
    ensures Inv(Feed(cast, k, w))
    decreases |w|
  {
    hide Step, Inv;
    if |w| == 0 {
    } else {
      StepKeepsInv(cast, k, w[0]);
      FeedKeepsInv(cast, Step(cast, k, w[0]).0, w[1..]);
    }
  }

  // ----- Printing a request and parsing it back -----

  function Fields(headers: seq<Header>): seq<Line> {
    if |headers| == 0 then [] else [Field(headers[0].name, headers[0].value)] + Fields(headers[1..])
  }

  predicate Printable(cast: Cast, r: Request) {
    && |r.meth| > 0 && Tokens(r.meth) && UriChars(r.uri) && r.major >= 0 && r.minor >= 0
    && (forall i :: 0 <= i < |r.headers| ==> GoodLine(Field(r.headers[i].name, r.headers[i].value)))
    && FirstLength(cast, r.headers) == Some(|r.content|) && 0 < |r.content| < MAX_HTTP_REQUEST_LENGTH
  }

  function HeadOf(r: Request): Head
    requires r.major >= 0 && r.minor >= 0
  {
    Head(r.meth, r.uri, D.Print(r.major), D.Print(r.minor), Fields(r.headers))
  }

  function Print(r: Request): string
    requires r.major >= 0 && r.minor >= 0
  {
    Text(HeadOf(r)) + r.content
  }

  lemma {:induction false} FieldsAreGood(headers: seq<Header>, above: bool)
    requires forall i :: 0 <= i < |headers| ==> GoodLine(Field(headers[i].name, headers[i].value))
    ensures GoodLines(Fields(headers), above)
  {
    if |headers| == 0 {
    } else {
      FieldsAreGood(headers[1..], true);
      assert Fields(headers)[1..] == Fields(headers[1..]);
    }
  }

  lemma AddLinesCons(hs: seq<Header>, l: Line, lines: seq<Line>)
    ensures AddLines(hs, [l] + lines) == AddLines(AddLine(hs, l), lines)
  {
    assert ([l] + lines)[1..] == lines;
  }

  lemma {:induction false} FieldsMean(hs: seq<Header>, headers: seq<Header>)
    ensures AddLines(hs, Fields(headers)) == hs + headers
    decreases |headers|
  {
    if |headers| == 0 {
      assert hs + headers == hs;
    } else {
      hide AddLines;
      var h := headers[0];
      assert [h] + headers[1..] == headers;
      AddLinesCons(hs, Field(h.name, h.value), Fields(headers[1..]));
      FieldsMean(hs + [h], headers[1..]);
      assert (hs + [h]) + headers[1..] == hs + ([h] + headers[1..]);
    }
  }

  lemma HeadOfIsGood(cast: Cast, r: Request)
    requires Printable(cast, r)
    ensures GoodHead(HeadOf(r)) && Meaning(HeadOf(r)) == r.(content := "")
  {
    FieldsAreGood(r.headers, false);
    FieldsMean([], r.headers);
    D.PrintRoundTrip(r.major);
    D.PrintRoundTrip(r.minor);
  }

  /** Printing any well-formed request and parsing the text rebuilds exactly that request. */
  lemma RequestRoundTrip(cast: Cast, r: Request)
    requires Printable(cast, r)
    ensures Run(cast, FRESH, Print(r)) == Some(Config(Content, |r.content|, r))
  {
    hide Run, FirstLength;
    HeadOfIsGood(cast, r);
    SentenceAccepted(cast, HeadOf(r), r.content);
  }

  /** After the content a line feed or a NUL closes the request, and the next byte is answered with true. */
  lemma RequestCloses(cast: Cast, r: Request, c: char, next: char)
    requires Printable(cast, r)
    ensures Run(cast, FRESH, Print(r) + [c]).Some? <==> c == '\n' || c == '\0'
    ensures c == '\n' || c == '\0' ==>
              var k := Run(cast, FRESH, Print(r) + [c]).value;
              k == Config(ContentEnd, |r.content|, r) && Step(cast, k, next) == (k, True)
  {
    hide Run, Step, Print;
    RequestRoundTrip(cast, r);
    RunAppend(cast, FRESH, Print(r), [c]);
    var k := Config(Content, |r.content|, r);
    RunClose(cast, k, [c]);
    EndAnswers(cast, k.(state := ContentEnd), next);
  }

  lemma EndAnswers(cast: Cast, k: Config, c: char)
    requires k.state == ContentEnd && k.contentLength == |k.req.content|
    ensures Step(cast, k, c) == (k, True)
  {
  }

  // ----- Folded headers -----

  function Folds(blanks: seq<string>, pieces: seq<string>): seq<Line>
    requires |blanks| == |pieces|
  {
    if |pieces| == 0 then [] else [Fold(blanks[0], pieces[0])] + Folds(blanks[1..], pieces[1..])
  }

  function Join(pieces: seq<string>): string {
    if |pieces| == 0 then "" else pieces[0] + Join(pieces[1..])
  }

  lemma {:induction false} FoldsMean(hs: seq<Header>, name: string, value: string,
                                     blanks: seq<string>, pieces: seq<string>, after: seq<Line>)
    requires |blanks| == |pieces|
    ensures AddLines(hs + [Header(name, value)], Folds(blanks, pieces) + after)
            == AddLines(hs + [Header(name, value + Join(pieces))], after)
    decreases |pieces|
  {
    if |pieces| == 0 {
      assert [] + after == after && value + "" == value;
    } else {
      hide AddLines, AddLine, Folds, Join;
      var l, tail := Fold(blanks[0], pieces[0]), Folds(blanks[1..], pieces[1..]) + after;
      FoldsFirst(blanks, pieces, after);
      AddLinesCons(hs + [Header(name, value)], l, tail);
      AddPiece(hs, name, value, blanks[0], pieces[0]);
      FoldsMean(hs, name, value + pieces[0], blanks[1..], pieces[1..], after);
      JoinFirst(value, pieces);
    }
  }

  lemma FoldsFirst(blanks: seq<string>, pieces: seq<string>, after: seq<Line>)
    requires |blanks| == |pieces| > 0
    ensures Folds(blanks, pieces) + after
            == [Fold(blanks[0], pieces[0])] + (Folds(blanks[1..], pieces[1..]) + after)
  {
  }

  lemma AddPiece(hs: seq<Header>, name: string, value: string, blanks: string, piece: string)
    ensures AddLine(hs + [Header(name, value)], Fold(blanks, piece)) == hs + [Header(name, value + piece)]
  {
  }

  lemma JoinFirst(value: string, pieces: seq<string>)
    requires |pieces| > 0
    ensures value + Join(pieces) == value + pieces[0] + Join(pieces[1..])
  {
  }

  lemma {:induction false} AddLinesAppend(hs: seq<Header>, a: seq<Line>, b: seq<Line>)
    ensures AddLines(hs, a + b) == AddLines(AddLines(hs, a), b)
    decreases |a|
  {
    if |a| == 0 {
      assert a + b == b;
    } else {
      assert (a + b)[1..] == a[1..] + b;
      AddLinesAppend(AddLine(hs, a[0]), a[1..], b);
    }
  }

  /** Breaking a header value into pieces with CRLF and blanks describes the same request as writing the
      pieces one after the other: the parser removes line break and blanks without putting a space. */
  lemma FoldingIsConcatenation(h: Head, before: seq<Line>, name: string, value: string,
                               blanks: seq<string>, pieces: seq<string>, after: seq<Line>)
    requires |blanks| == |pieces|
    ensures Meaning(h.(lines := before + ([Field(name, value)] + (Folds(blanks, pieces) + after))))
            == Meaning(h.(lines := before + ([Field(name, value + Join(pieces))] + after)))
  {
    var hs := AddLines([], before);
    var folded := [Field(name, value)] + (Folds(blanks, pieces) + after);
    var plain := [Field(name, value + Join(pieces))] + after;
    AddLinesAppend([], before, folded);
    AddLinesAppend([], before, plain);
    assert folded[1..] == Folds(blanks, pieces) + after && plain[1..] == after;
    FoldsMean(hs, name, value, blanks, pieces, after);
  }

  lemma {:induction false} GoodLinesAppend(a: seq<Line>, b: seq<Line>, above: bool)
    ensures GoodLines(a + b, above) <==> GoodLines(a, above) && GoodLines(b, above || |a| > 0)
    decreases |a|
  {
    if |a| == 0 {
      assert a + b == b;
    } else {
      assert (a + b)[1..] == a[1..] + b;
      GoodLinesAppend(a[1..], b, true);
    }
  }

  lemma {:induction false} FoldsAreValueChars(blanks: seq<string>, pieces: seq<string>)
    requires |blanks| == |pieces| && GoodLines(Folds(blanks, pieces), true)
    ensures ValueChars(Join(pieces))
    decreases |pieces|
  {
    if |pieces| == 0 {
    } else {
      assert Folds(blanks, pieces)[1..] == Folds(blanks[1..], pieces[1..]);
      assert GoodLine(Fold(blanks[0], pieces[0]));
      FoldsAreValueChars(blanks[1..], pieces[1..]);
    }
  }

  /** So a request with folded headers is accepted with the same result as the one with the values in one piece. */
  lemma FoldedParsesAlike(cast: Cast, folded: Head, plain: Head, before: seq<Line>, name: string, value: string,
                          blanks: seq<string>, pieces: seq<string>, after: seq<Line>, body: string)
    requires |blanks| == |pieces| && GoodHead(folded)
    requires folded.lines == before + ([Field(name, value)] + (Folds(blanks, pieces) + after))
    requires plain == folded.(lines := before + ([Field(name, value + Join(pieces))] + after))
    requires LengthOk(cast, Meaning(folded).headers) && |body| <= FirstLength(cast, Meaning(folded).headers).value
    ensures GoodHead(plain)
    ensures Run(cast, FRESH, Text(folded) + body).Some?
    ensures Run(cast, FRESH, Text(folded) + body) == Run(cast, FRESH, Text(plain) + body)
  {
    hide Run, FirstLength, Text, AddLines;
    FoldingIsConcatenation(folded, before, name, value, blanks, pieces, after);
    assert folded.(lines := folded.lines) == folded;
    GoodLinesAppend(before, [Field(name, value)] + (Folds(blanks, pieces) + after), false);
    GoodLinesAppend(before, [Field(name, value + Join(pieces))] + after, false);
    FieldFirst(Field(name, value), Folds(blanks, pieces) + after, |before| > 0);
    FieldFirst(Field(name, value + Join(pieces)), after, |before| > 0);
    GoodLinesAppend(Folds(blanks, pieces), after, true);
    FoldsAreValueChars(blanks, pieces);
    SentenceAccepted(cast, folded, body);
    SentenceAccepted(cast, plain, body);
  }

  lemma FieldFirst(l: Line, more: seq<Line>, above: bool)
    requires l.Field?
    ensures GoodLines([l] + more, above) <==> GoodLine(l) && GoodLines(more, true)
  {
    assert ([l] + more)[1..] == more;
  }

  // ----- The driver -----

  /* The verdict of parse: taken from the lengths alone, after at most one byte. */
  function Report(k: Config): Tribool {
    if k.contentLength > 0 && |k.req.content| == k.contentLength then True
    else if k.contentLength > 0 && |k.req.content| < k.contentLength then Indeterminate
    else False
  }

  lemma PrefixRuns(cast: Cast, k: Config, w: string, i: nat)
    requires i <= |w| && Run(cast, k, w).Some?
    ensures Run(cast, k, w[..i]).Some? && Run(cast, Run(cast, k, w[..i]).value, w[i..]) == Run(cast, k, w)
  {
    assert w == w[..i] + w[i..];
    RunAppend(cast, k, w[..i], w[i..]);
  }

  /* No proper prefix of a sentence reaches the content state. */
  lemma HeadNotDone(cast: Cast, h: Head, body: string, i: nat)
    requires GoodHead(h) && LengthOk(cast, Meaning(h).headers)
    requires |body| <= FirstLength(cast, Meaning(h).headers).value && i < |Text(h)|
    ensures Run(cast, FRESH, (Text(h) + body)[..i]).Some?
    ensures Run(cast, FRESH, (Text(h) + body)[..i]).value.contentLength == 0
  {
    hide Run, FirstLength, Step, Text, Meaning;
    var w := Text(h) + body;
    SentenceAccepted(cast, h, body);
    PrefixRuns(cast, FRESH, w, i);
    var k := Run(cast, FRESH, w[..i]).value;
    if k.state == ContentEnd {
      EndIsFinal(cast, k, w[i..], Run(cast, FRESH, w).value);
      assert false;
    } else if k.state == Content {
      var h', body' := AcceptedIsSentence(cast, w[..i], k);
      assert Text(h') + (body' + w[i..]) == w;
      SameHead(h, body, h', body' + w[i..]);
      assert false;
    }
    RunKeepsInv(cast, FRESH, w[..i]);
  }

  /* A head with a usable Content-Length and all of the content it announces. */
  predicate Whole(cast: Cast, h: Head, body: string) {
    && GoodHead(h) && LengthOk(cast, Meaning(h).headers)
    && |body| == FirstLength(cast, Meaning(h).headers).value
  }

  /** Fed one byte at a time with a well-formed request, folded headers included, parse reports false until
      the head is complete, indeterminate from the final line feed of the head on, and true for the first
      time on exactly the byte that completes the announced length. */
  lemma Timeline(cast: Cast, h: Head, body: string, i: nat)
    requires Whole(cast, h, body) && i <= |Text(h) + body|
    ensures Run(cast, FRESH, (Text(h) + body)[..i]).Some?
    ensures Report(Run(cast, FRESH, (Text(h) + body)[..i]).value)
            == if i < |Text(h)| then False else if i < |Text(h) + body| then Indeterminate else True
  {
    hide Run, FirstLength, Text, Meaning;
    var n := |Text(h)|;
    if i < n {
      HeadNotDone(cast, h, body, i);
    } else {
      assert (Text(h) + body)[..i] == Text(h) + body[..i - n];
      SentenceAccepted(cast, h, body[..i - n]);
    }
  }

  // ----- Any input at all -----

  /* The characters that are not rejected. */
  function Taken(cast: Cast, k: Config, w: string): (t: string)
    ensures |t| <= |w|
    decreases |w|
  {
    if |w| == 0 then ""
    else
      var (k', verdict) := Step(cast, k, w[0]);
      (if verdict == False then "" else [w[0]]) + Taken(cast, k', w[1..])
  }

  /** Since parse discards the verdict of consume, a rejected character is skipped: any input leads where
      the characters that are not rejected lead on their own. */
  lemma {:induction false} FeedSkipsRejected(cast: Cast, k: Config, w: string)
    requires Inv(k)
    ensures Run(cast, k, Taken(cast, k, w)) == Some(Feed(cast, k, w))
    ensures Run(cast, k, w).Some? <==> Taken(cast, k, w) == w
    decreases |w|
  {
    hide Step, Inv;
    if |w| > 0 {
      StepKeepsInv(cast, k, w[0]);
      var (k', verdict) := Step(cast, k, w[0]);
      var t := Taken(cast, k', w[1..]);
      FeedSkipsRejected(cast, k', w[1..]);
      if verdict == False {
        assert "" + t == t;
      } else {
        assert ([w[0]] + t)[1..] == t;
        assert [w[0]] + w[1..] == w;
      }
    }
  }

  /** So on any input the content state is reached exactly when the characters that are not rejected are
      a sentence followed by at most the announced content. */
  lemma FedIff(cast: Cast, w: string, k: Config)
    ensures Feed(cast, FRESH, w) == k && k.state == Content <==>
            exists h, body :: Describes(cast, Taken(cast, FRESH, w), k, h, body)
  {
    hide Feed, Taken, Run, Describes;
    FeedSkipsRejected(cast, FRESH, w);
    AcceptedIff(cast, Taken(cast, FRESH, w), k);
  }

  /* t is the head h, its content and, if anything follows, a line feed or NUL and whatever comes then. */
  predicate Answers(cast: Cast, t: string, r: Request, h: Head, body: string, after: string) {
    && Whole(cast, h, body) && t == Text(h) + body + after && r == Meaning(h).(content := body)
    && (after != "" ==> after[0] in {'\n', '\0'})
  }

  /** The exact condition under which parse has answered true on an arbitrary input, and the request it
      answers for. */
  lemma ReportTrueIff(cast: Cast, w: string, r: Request)
    ensures Report(Feed(cast, FRESH, w)) == True && Feed(cast, FRESH, w).req == r <==>
            exists h, body, after :: Answers(cast, Taken(cast, FRESH, w), r, h, body, after)
  {
    hide Feed, Taken, Run, Text, Meaning, FirstLength, GoodHead;
    FeedSkipsRejected(cast, FRESH, w);
    FeedKeepsInv(cast, FRESH, w);
    var t, k := Taken(cast, FRESH, w), Feed(cast, FRESH, w);
    if Report(k) == True && k.req == r {
      FinishedReads(cast, t, k);
    } else if h, body, after :| Answers(cast, t, r, h, body, after) {
      AnswersRuns(cast, t, r, h, body, after);
    }
  }

  lemma AnswersRuns(cast: Cast, t: string, r: Request, h: Head, body: string, after: string)
    requires Answers(cast, t, r, h, body, after)
    ensures Run(cast, FRESH, t).Some?
    ensures var k := Run(cast, FRESH, t).value; k.req == r && Report(k) == True
  {
    hide Run, Text, Meaning, FirstLength, GoodHead;
    SentenceAccepted(cast, h, body);
    RunAppend(cast, FRESH, Text(h) + body, after);
    RunClose(cast, Config(Content, |body|, r), after);
  }

  /* From complete content on. */
  lemma RunClose(cast: Cast, k: Config, after: string)
    requires k.state == Content && |k.req.content| == k.contentLength
    ensures Run(cast, k, after) ==
            if after == "" then Some(k)
            else if after[0] in {'\n', '\0'} then Some(k.(state := ContentEnd)) else None
  {
    if after != "" {
      EndAbsorbs(cast, k.(state := ContentEnd), after[1..]);
    }
  }

  lemma {:induction false} EndAbsorbs(cast: Cast, k: Config, w: string)
    requires k.state == ContentEnd && |k.req.content| == k.contentLength
    ensures Run(cast, k, w) == Some(k)
    decreases |w|
  {
    if |w| == 0 {
    } else {
      EndAbsorbs(cast, k, w[1..]);
    }
  }

  lemma FinishedReads(cast: Cast, t: string, k: Config)
    requires Run(cast, FRESH, t) == Some(k) && Inv(k) && Report(k) == True
    ensures exists h, body, after :: Answers(cast, t, k.req, h, body, after)
  {
    hide Run, Text, Meaning, FirstLength, GoodHead;
    var i := ContentFilled(cast, FRESH, t, k);
    var mid := Run(cast, FRESH, t[..i]).value;
    var h, body := AcceptedIsSentence(cast, t[..i], mid);
    assert t == t[..i] + t[i..];
    RunAppend(cast, FRESH, t[..i], t[i..]);
    RunClose(cast, mid, t[i..]);
    assert Answers(cast, t, k.req, h, body, t[i..]);
  }

  /* Where the content was completed. */
  lemma {:induction false} ContentFilled(cast: Cast, k: Config, w: string, end: Config) returns (i: nat)
    requires Inv(k) && k.state != ContentEnd && Run(cast, k, w) == Some(end) && Inv(end) && Report(end) == True
    ensures i <= |w| && Run(cast, k, w[..i]).Some?
    ensures var mid := Run(cast, k, w[..i]).value; mid.state == Content && |mid.req.content| == mid.contentLength
    decreases |w|
  {
    hide Step, Inv;
    if k.state == Content && |k.req.content| == k.contentLength {
      i := 0;
    } else {
      NotFilled(cast, k, w, end);
      StepKeepsInv(cast, k, w[0]);
      var j := ContentFilled(cast, Step(cast, k, w[0]).0, w[1..], end);
      i := j + 1;
      assert w[..i][1..] == w[1..][..j];
    }
  }

  lemma NotFilled(cast: Cast, k: Config, w: string, end: Config)
    requires Inv(k) && k.state != ContentEnd && !(k.state == Content && |k.req.content| == k.contentLength)
    requires Run(cast, k, w) == Some(end) && Inv(end) && Report(end) == True
    ensures |w| > 0 && Step(cast, k, w[0]).1 != False && Step(cast, k, w[0]).0.state != ContentEnd
  {
  }

  lemma {:induction false} FeedAppend(cast: Cast, k: Config, u: string, v: string)
    ensures Feed(cast, k, u + v) == Feed(cast, Feed(cast, k, u), v)
    decreases |u|
  {
    hide Step;
    if |u| == 0 {
      assert u + v == v;
    } else {
      assert (u + v)[1..] == u[1..] + v;
      FeedAppend(cast, Step(cast, k, u[0]).0, u[1..], v);
    }
  }

  lemma {:induction false} FeedOfRun(cast: Cast, k: Config, w: string)
    requires Run(cast, k, w).Some?
    ensures Feed(cast, k, w) == Run(cast, k, w).value
    decreases |w|
  {
    hide Step;
    if |w| == 0 {
    } else {
      FeedOfRun(cast, Step(cast, k, w[0]).0, w[1..]);
    }
  }

  /** A text with a bad first character is not a request, and parse answers true for it all the same: for
      every well-formed request, with any number of characters in front that cannot start one. */
  lemma BadStartIsSkipped(cast: Cast, h: Head, body: string, junk: string)
    requires Whole(cast, h, body) && junk != "" && forall c :: c in junk ==> !IsToken(c)
    ensures Run(cast, FRESH, junk + (Text(h) + body)) == None
    ensures Report(Feed(cast, FRESH, junk + (Text(h) + body))) == True
    ensures Feed(cast, FRESH, junk + (Text(h) + body)).req == Meaning(h).(content := body)
  {
    hide Run, Text, Meaning, FirstLength, Feed, GoodHead;
    var w := Text(h) + body;
    assert (junk + w)[0] == junk[0];
    FirstRejected(cast, FRESH, junk + w);
    SkipJunk(cast, junk);
    FeedAppend(cast, FRESH, junk, w);
    SentenceAccepted(cast, h, body);
    FeedOfRun(cast, FRESH, w);
  }

  lemma FirstRejected(cast: Cast, k: Config, w: string)
    requires w != "" && Step(cast, k, w[0]).1 == False
    ensures Run(cast, k, w) == None
  {
    hide Step;
  }

  lemma {:induction false} SkipJunk(cast: Cast, junk: string)
    requires forall c :: c in junk ==> !IsToken(c)
    ensures Feed(cast, FRESH, junk) == FRESH
    decreases |junk|
  {
    hide IsToken;
    if |junk| == 0 {
    } else {
      SkipJunk(cast, junk[1..]);
    }
  }

  /** A head without a usable Content-Length is the end: its last line feed is rejected, the parser keeps
      waiting for it, and nothing that follows is ever answered with anything but false. */
  lemma NoLengthNoAnswer(cast: Cast, h: Head, more: string)
    requires GoodHead(h) && !LengthOk(cast, Meaning(h).headers)
    ensures Feed(cast, FRESH, Text(h) + more) == Config(ExpectingNewline3, 0, Meaning(h))
    ensures Report(Feed(cast, FRESH, Text(h) + more)) == False
  {
    hide Run, Text, LinesText, RequestLine, Feed, FirstLength, LengthOk, AddLines, GoodLines;
    var k := Config(HeaderLineStart, 0, Meaning(h));
    var front := RequestLine(h) + LinesText(h.lines);
    FrontRuns(cast, h);
    FeedOfRun(cast, FRESH, front);
    TextParts(h, more);
    FeedAppend(cast, FRESH, front, ['\r'] + (['\n'] + more));
    FeedFirst(cast, k, '\r', ['\n'] + more);
    StuckForever(cast, k.(state := ExpectingNewline3), ['\n'] + more);
  }

  lemma FrontRuns(cast: Cast, h: Head)
    requires GoodHead(h)
    ensures Run(cast, FRESH, RequestLine(h) + LinesText(h.lines)) == Some(Config(HeaderLineStart, 0, Meaning(h)))
  {
    hide Run, LinesText, RequestLine, AddLines, GoodLines;
    assert LinesText(h.lines) + "" == LinesText(h.lines);
    RunRequestLine(cast, h, LinesText(h.lines));
    RunLines(cast, AfterRequestLine(h), h.lines, "");
    RunEmpty(cast, Config(HeaderLineStart, 0, Meaning(h)));
  }

  lemma RunEmpty(cast: Cast, k: Config)
    ensures Run(cast, k, "") == Some(k)
  {
  }

  lemma TextParts(h: Head, more: string)
    ensures Text(h) + more == RequestLine(h) + LinesText(h.lines) + (['\r'] + (['\n'] + more))
  {
    hide RequestLine, LinesText;
  }

  lemma FeedFirst(cast: Cast, k: Config, c: char, w: string)
    ensures Feed(cast, k, [c] + w) == Feed(cast, Step(cast, k, c).0, w)
  {
    hide Step;
    assert ([c] + w)[1..] == w;
  }

  /** The state itself is a trap: no character leads out of it. */
  lemma {:induction false} StuckForever(cast: Cast, k: Config, w: string)
    requires Inv(k) && k.state == ExpectingNewline3 && !LengthOk(cast, k.req.headers)
    ensures Feed(cast, k, w) == k && Report(k) == False
    decreases |w|
  {
    hide FirstLength;
    if |w| == 0 {
    } else {
      StuckForever(cast, k, w[1..]);
    }
  }
}
