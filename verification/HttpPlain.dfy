/** The HTTP parser told in plain characters: which they are, how names are compared, and what becomes of
    requests that are written out in full. */
module HttpPlain {
  import opened Common
  import opened Http
  import opened HttpGrammar
  import opened HttpProperties

  // ----- The characters -----

  /** The characters of methods and header names, one by one, and the control characters by their codes. */
  lemma CharacterClasses(c: char)
    ensures IsToken(c) <==>
            'a' <= c <= 'z' || 'A' <= c <= 'Z' || '0' <= c <= '9' || c in "!#$%&'*+-.^_`|~"
    ensures IsCtl(c) <==> c as int < 32 || c as int == 127
    ensures IsBlank(c) <==> c as int == 32 || c as int == 9
  {
    Punctuation(c);
  }

  lemma Punctuation(c: char)
    ensures c in "!#$%&'*+-.^_`|~" <==>
            || c as int == 33 || 35 <= c as int <= 39 || c as int == 42 || c as int == 43 || c as int == 45
            || c as int == 46 || 94 <= c as int <= 96 || c as int == 124 || c as int == 126
  {
    var marks := "!#$%&'*+-.^_`|~";
    assert c in marks <==>
      || c == marks[0] || c == marks[1] || c == marks[2] || c == marks[3] || c == marks[4] || c == marks[5]
      || c == marks[6] || c == marks[7] || c == marks[8] || c == marks[9] || c == marks[10] || c == marks[11]
      || c == marks[12] || c == marks[13] || c == marks[14];
  }

  /* A character of a method or a header name. */
  predicate NameChar(c: char) {
    'a' <= c <= 'z' || 'A' <= c <= 'Z' || '0' <= c <= '9' || c in "!#$%&'*+-.^_`|~"
  }

  /** The words of the grammar, by their characters. */
  lemma WordsMean(s: string)
    ensures Tokens(s) <==> forall i :: 0 <= i < |s| ==> NameChar(s[i])
    ensures UriChars(s) <==> forall i :: 0 <= i < |s| ==> s[i] as int > 32 && s[i] as int != 127
    ensures ValueChars(s) <==> forall i :: 0 <= i < |s| ==> s[i] as int >= 32 && s[i] as int != 127
    ensures Blanks(s) <==> forall i :: 0 <= i < |s| ==> s[i] == ' ' || s[i] == '\t'
  {
    hide IsToken, NameChar;
    forall i | 0 <= i < |s|
      ensures Stays(Method, s[i]) <==> NameChar(s[i])
    {
      MethodChar(s[i]);
    }
  }

  lemma MethodChar(c: char)
    ensures Stays(Method, c) <==> NameChar(c)
  {
    CharacterClasses(c);
  }

  // ----- The length header -----

  /* Content-Length in any mix of cases. */
  predicate NamesLength(name: string) {
    |name| == 14 && forall i :: 0 <= i < 14 ==> name[i] == "content-length"[i] || name[i] == "CONTENT-LENGTH"[i]
  }

  lemma NamesLengthIff(name: string)
    ensures HeadersEqual(name, CONTENT_LENGTH_NAME) <==> NamesLength(name)
  {
    hide ToLower;
    if |name| == 14 {
      forall i | 0 <= i < 14
        ensures ToLower(name[i]) == ToLower(CONTENT_LENGTH_NAME[i]) <==>
                name[i] == "content-length"[i] || name[i] == "CONTENT-LENGTH"[i]
      {
        LetterAt(name[i], i);
      }
    }
  }

  lemma LetterAt(c: char, i: nat)
    requires i < 14
    ensures ToLower(c) == ToLower(CONTENT_LENGTH_NAME[i]) <==> c == "content-length"[i] || c == "CONTENT-LENGTH"[i]
  {
    var lower, upper := "content-length", "CONTENT-LENGTH";
    assert CONTENT_LENGTH_NAME[i] == lower[i] || CONTENT_LENGTH_NAME[i] == upper[i];
    assert (lower[i] == '-' && upper[i] == '-')
        || ('a' <= lower[i] <= 'z' && 'A' <= upper[i] <= 'Z' && lower[i] as int - upper[i] as int == 32);
  }

  /** The declared length is that of the first length header, in any mix of cases, whose value can be read. */
  lemma {:induction false} FirstLengthMeans(cast: Cast, headers: seq<Header>)
    ensures FirstLength(cast, headers) == None <==>
            forall i :: 0 <= i < |headers| && NamesLength(headers[i].name) ==> cast(headers[i].value) == None
    ensures FirstLength(cast, headers) != None ==>
              exists i :: 0 <= i < |headers| && NamesLength(headers[i].name)
                && cast(headers[i].value) == FirstLength(cast, headers)
                && forall j :: 0 <= j < i && NamesLength(headers[j].name) ==> cast(headers[j].value) == None
    decreases |headers|
  {
    hide HeadersEqual, NamesLength;
    if |headers| == 0 {
    } else {
      NamesLengthIff(headers[0].name);
      FirstLengthMeans(cast, headers[1..]);
      if NamesLength(headers[0].name) && cast(headers[0].value).Some? {
        assert cast(headers[0].value) == FirstLength(cast, headers);
      } else if FirstLength(cast, headers) != None {
        var i :| 0 <= i < |headers[1..]| && NamesLength(headers[1..][i].name)
          && cast(headers[1..][i].value) == FirstLength(cast, headers)
          && forall j :: 0 <= j < i && NamesLength(headers[1..][j].name) ==> cast(headers[1..][j].value) == None;
        assert headers[1..][i] == headers[i + 1];
        forall j | 0 <= j < i + 1 && NamesLength(headers[j].name) ensures cast(headers[j].value) == None {
          if j > 0 { assert headers[1..][j - 1] == headers[j]; }
        }
      } else {
        forall i | 0 <= i < |headers| && NamesLength(headers[i].name) ensures cast(headers[i].value) == None {
          if i > 0 { assert headers[1..][i - 1] == headers[i]; }
        }
      }
    }
  }

  // ----- Requests written out -----

  predicate Name(s: string) {
    s != "" && forall i :: 0 <= i < |s| ==> NameChar(s[i])
  }

  predicate Target(s: string) {
    forall i :: 0 <= i < |s| ==> s[i] as int > 32 && s[i] as int != 127
  }

  predicate Value(s: string) {
    forall i :: 0 <= i < |s| ==> s[i] as int >= 32 && s[i] as int != 127
  }

  lemma PlainHead(meth: string, uri: string, lines: seq<Line>)
    requires Name(meth) && Target(uri) && GoodLines(lines, false)
    ensures var h := Head(meth, uri, "1", "1", lines);
            && GoodHead(h) && Meaning(h) == Request(meth, uri, 1, 1, AddLines([], lines), "")
            && Text(h) == meth + " " + uri + " HTTP/1.1\r\n" + LinesText(lines) + "\r\n"
  {
    hide NameChar, AllStay, AddLines, LinesText, GoodLines;
    WordsMean(meth);
    WordsMean(uri);
    One();
  }

  lemma One()
    ensures D.AllDigits("1") && D.Accumulate(0, "1") == 1
  {
  }

  lemma OneField(name: string, value: string)
    requires Name(name) && Value(value)
    ensures GoodLines([Field(name, value)], false)
    ensures AddLines([], [Field(name, value)]) == [Header(name, value)]
    ensures LinesText([Field(name, value)]) == name + ": " + value + "\r\n"
  {
    hide NameChar, AllStay;
    WordsMean(name);
    WordsMean(value);
    var l := Field(name, value);
    assert [l] + [] == [l] && [l][1..] == [];
    FieldFirst(l, [], false);
    AddLinesCons([], l, []);
    assert LinesText([l]) == LineText(l) + "";
  }

  /* What the only length header announces. */
  lemma OnlyLength(cast: Cast, before: seq<Header>, name: string, value: string)
    requires NamesLength(name) && forall i :: 0 <= i < |before| ==> !NamesLength(before[i].name)
    ensures FirstLength(cast, before + [Header(name, value)]) == cast(value)
    decreases |before|
  {
    hide HeadersEqual, NamesLength;
    var hs := before + [Header(name, value)];
    if |before| == 0 {
      NamesLengthIff(name);
      assert hs == [Header(name, value)] && hs[1..] == [];
      assert FirstLength(cast, hs[1..]) == None;
    } else {
      NamesLengthIff(before[0].name);
      assert hs[0] == before[0] && hs[1..] == before[1..] + [Header(name, value)];
      OnlyLength(cast, before[1..], name, value);
    }
  }

  lemma LengthName(name: string)
    requires NamesLength(name)
    ensures Name(name)
  {
    forall i | 0 <= i < |name| ensures NameChar(name[i]) {
      LetterIsName(i);
    }
  }

  lemma LetterIsName(i: nat)
    requires i < 14
    ensures NameChar("content-length"[i]) && NameChar("CONTENT-LENGTH"[i])
  {
    var lower, upper := "content-length", "CONTENT-LENGTH";
    assert (lower[i] == '-' && upper[i] == '-') || ('a' <= lower[i] <= 'z' && 'A' <= upper[i] <= 'Z');
    Punctuation('-');
  }

  lemma DigitsAreValue(n: nat)
    ensures Value(D.Print(n))
  {
    var s := D.Print(n);
    forall i | 0 <= i < |s| ensures s[i] as int >= 32 && s[i] as int != 127 {
      assert D.IsDigit(s[i]);
    }
  }

  /* The head with a length header behind other lines, and its text. */
  lemma LengthLast(cast: Cast, meth: string, uri: string, before: seq<Line>, name: string, n: nat)
    requires Name(meth) && Target(uri) && GoodLines(before, false) && NamesLength(name)
    requires forall i :: 0 <= i < |AddLines([], before)| ==> !NamesLength(AddLines([], before)[i].name)
    ensures var h := Head(meth, uri, "1", "1", before + [Field(name, D.Print(n))]);
            && GoodHead(h) && FirstLength(cast, Meaning(h).headers) == cast(D.Print(n))
            && Meaning(h) == Request(meth, uri, 1, 1, AddLines([], before) + [Header(name, D.Print(n))], "")
            && Text(h) == meth + " " + uri + " HTTP/1.1\r\n"
                          + (LinesText(before) + (name + ": " + D.Print(n) + "\r\n")) + "\r\n"
  {
    var value := D.Print(n);
    var last := [Field(name, value)];
    hide NameChar, FirstLength, GoodHead, Text, Meaning, AddLines, LinesText, GoodLines, NamesLength, D.Print;
    LengthName(name);
    DigitsAreValue(n);
    OneField(name, value);
    GoodLinesAppend(before, last, false);
    StillGood(name, value, |before| > 0);
    PlainHead(meth, uri, before + last);
    AddLinesAppend([], before, last);
    AddField(AddLines([], before), name, value);
    LinesTextAppend(before, last);
    OnlyLength(cast, AddLines([], before), name, value);
  }

  lemma StillGood(name: string, value: string, above: bool)
    requires GoodLines([Field(name, value)], false)
    ensures GoodLines([Field(name, value)], above)
  {
    assert [Field(name, value)] + [] == [Field(name, value)];
    FieldFirst(Field(name, value), [], above);
    FieldFirst(Field(name, value), [], false);
  }

  lemma AddField(hs: seq<Header>, name: string, value: string)
    ensures AddLines(hs, [Field(name, value)]) == hs + [Header(name, value)]
  {
    assert [Field(name, value)] + [] == [Field(name, value)];
    AddLinesCons(hs, Field(name, value), []);
  }

  lemma {:induction false} LinesTextAppend(a: seq<Line>, b: seq<Line>)
    ensures LinesText(a + b) == LinesText(a) + LinesText(b)
  {
    hide LineText;
    if |a| == 0 {
      assert a + b == b;
    } else {
      assert (a + b)[1..] == a[1..] + b;
      LinesTextAppend(a[1..], b);
    }
  }

  lemma NoLines()
    ensures GoodLines([], false) && AddLines([], []) == [] && LinesText([]) == ""
  {
  }

  /* A request line, other lines, and the length header last. */
  lemma LengthLastAccepted(cast: Cast, meth: string, uri: string, before: seq<Line>, name: string, n: nat, body: string)
    requires Name(meth) && Target(uri) && GoodLines(before, false) && NamesLength(name)
    requires forall i :: 0 <= i < |AddLines([], before)| ==> !NamesLength(AddLines([], before)[i].name)
    requires |body| == n && 0 < n < 1024 && cast(D.Print(n)) == Some(n)
    ensures Run(cast, FRESH, meth + " " + uri + " HTTP/1.1\r\n"
                             + (LinesText(before) + (name + ": " + D.Print(n) + "\r\n")) + "\r\n" + body)
            == Some(Config(Content, n, Request(meth, uri, 1, 1,
                                               AddLines([], before) + [Header(name, D.Print(n))], body)))
  {
    hide Run, Name, Target, FirstLength, GoodHead, Text, Meaning, GoodLines, AddLines, LinesText, NamesLength, D.Print;
    LengthLast(cast, meth, uri, before, name, n);
    SentenceAccepted(cast, Head(meth, uri, "1", "1", before + [Field(name, D.Print(n))]), body);
  }

  /** A request written out in full is taken exactly as it stands, whatever the case of the letters of
      Content-Length, if the length is in 1..1023. */
  lemma PlainRequestAccepted(cast: Cast, meth: string, uri: string, name: string, n: nat, body: string)
    requires meth != "" && forall i :: 0 <= i < |meth| ==> NameChar(meth[i])
    requires forall i :: 0 <= i < |uri| ==> uri[i] as int > 32 && uri[i] as int != 127
    requires |name| == 14
    requires forall i :: 0 <= i < 14 ==> name[i] == "content-length"[i] || name[i] == "CONTENT-LENGTH"[i]
    requires |body| == n && 0 < n < 1024 && cast(D.Print(n)) == Some(n)
    ensures Run(cast, FRESH, meth + " " + uri + " HTTP/1.1\r\n" + name + ": " + D.Print(n) + "\r\n\r\n" + body)
            == Some(Config(Content, n, Request(meth, uri, 1, 1, [Header(name, D.Print(n))], body)))
  {
    assert Name(meth) && Target(uri) && NamesLength(name);
    PlainRequest(cast, meth, uri, name, n, body);
  }

  lemma PlainRequest(cast: Cast, meth: string, uri: string, name: string, n: nat, body: string)
    requires Name(meth) && Target(uri) && NamesLength(name)
    requires |body| == n && 0 < n < 1024 && cast(D.Print(n)) == Some(n)
    ensures Run(cast, FRESH, meth + " " + uri + " HTTP/1.1\r\n" + name + ": " + D.Print(n) + "\r\n\r\n" + body)
            == Some(Config(Content, n, Request(meth, uri, 1, 1, [Header(name, D.Print(n))], body)))
  {
    hide *;
    NoLines();
    LengthLastAccepted(cast, meth, uri, [], name, n, body);
    WrittenOut(meth + " " + uri + " HTTP/1.1\r\n", name, D.Print(n), body);
    assert [] + [Header(name, D.Print(n))] == [Header(name, D.Print(n))];
  }

  lemma WrittenOut(front: string, name: string, value: string, body: string)
    ensures front + ("" + (name + ": " + value + "\r\n")) + "\r\n" + body
            == front + name + ": " + value + "\r\n\r\n" + body
  {
  }

  /** With any other number, or one that cannot be read, the same head is never answered with anything but
      false, whatever comes after it. */
  lemma PlainRequestRefused(cast: Cast, meth: string, uri: string, name: string, n: nat, more: string)
    requires meth != "" && forall i :: 0 <= i < |meth| ==> NameChar(meth[i])
    requires forall i :: 0 <= i < |uri| ==> uri[i] as int > 32 && uri[i] as int != 127
    requires |name| == 14
    requires forall i :: 0 <= i < 14 ==> name[i] == "content-length"[i] || name[i] == "CONTENT-LENGTH"[i]
    requires cast(D.Print(n)) == None || (cast(D.Print(n)) == Some(n) && !(0 < n < 1024))
    ensures Report(Feed(cast, FRESH,
                        meth + " " + uri + " HTTP/1.1\r\n" + name + ": " + D.Print(n) + "\r\n\r\n" + more)) == False
  {
    assert Name(meth) && Target(uri) && NamesLength(name);
    PlainRefusal(cast, meth, uri, name, n, more);
  }

  lemma PlainRefusal(cast: Cast, meth: string, uri: string, name: string, n: nat, more: string)
    requires Name(meth) && Target(uri) && NamesLength(name)
    requires cast(D.Print(n)) == None || (cast(D.Print(n)) == Some(n) && !(0 < n < 1024))
    ensures Report(Feed(cast, FRESH,
                        meth + " " + uri + " HTTP/1.1\r\n" + name + ": " + D.Print(n) + "\r\n\r\n" + more)) == False
  {
    var h := Head(meth, uri, "1", "1", [] + [Field(name, D.Print(n))]);
    hide Report, Feed, Name, Target, NamesLength, FirstLength, GoodHead, Text, Meaning, GoodLines, AddLines;
    hide LinesText, D.Print;
    NoLines();
    LengthLast(cast, meth, uri, [], name, n);
    NoLengthNoAnswer(cast, h, more);
    WrittenOut(meth + " " + uri + " HTTP/1.1\r\n", name, D.Print(n), more);
  }

  // ----- A folded header written out -----

  lemma FoldedField(other: string, v1: string, blanks: string, v2: string)
    requires Name(other) && Value(v1) && Value(v2) && (v2 != "" ==> v2[0] != ' ')
    requires blanks != "" && forall i :: 0 <= i < |blanks| ==> blanks[i] == ' ' || blanks[i] == '\t'
    ensures var lines := [Field(other, v1)] + [Fold(blanks, v2)];
            && GoodLines(lines, false) && AddLines([], lines) == [Header(other, v1 + v2)]
            && LinesText(lines) == other + ": " + v1 + "\r\n" + (blanks + v2 + "\r\n")
  {
    var fold := [Fold(blanks, v2)];
    OneField(other, v1);
    WordsMean(blanks);
    WordsMean(v2);
    assert v2 != "" ==> !IsBlank(v2[0]);
    assert GoodLine(fold[0]) && fold[1..] == [];
    hide NameChar, AllStay, Value, LineText, IsBlank;
    FieldFirst(Field(other, v1), fold, false);
    AddLinesAppend([], [Field(other, v1)], fold);
    AddPiece([], other, v1, blanks, v2);
    assert [] + [Header(other, v1)] == [Header(other, v1)];
    assert [] + [Header(other, v1 + v2)] == [Header(other, v1 + v2)];
    assert fold == [fold[0]] + [];
    AddLinesCons([Header(other, v1)], fold[0], []);
    LinesTextAppend([Field(other, v1)], fold);
    FoldText(blanks, v2);
  }

  lemma FoldText(blanks: string, text: string)
    ensures LinesText([Fold(blanks, text)]) == blanks + text + "\r\n"
  {
    var l := Fold(blanks, text);
    assert [l][1..] == [] && LinesText([l]) == LineText(l) + "";
  }

  /** A header value broken by a line break and blanks is taken as its two pieces put together. */
  lemma FoldedRequestAccepted(cast: Cast, meth: string, uri: string, other: string, v1: string, blanks: string,
                              v2: string, name: string, n: nat, body: string)
    requires Name(meth) && Target(uri) && NamesLength(name)
    requires Name(other) && !NamesLength(other) && Value(v1) && Value(v2) && (v2 != "" ==> v2[0] != ' ')
    requires blanks != "" && forall i :: 0 <= i < |blanks| ==> blanks[i] == ' ' || blanks[i] == '\t'
    requires |body| == n && 0 < n < 1024 && cast(D.Print(n)) == Some(n)
    ensures Run(cast, FRESH, meth + " " + uri + " HTTP/1.1\r\n"
                             + ((other + ": " + v1 + "\r\n" + (blanks + v2 + "\r\n"))
                                + (name + ": " + D.Print(n) + "\r\n")) + "\r\n" + body)
            == Some(Config(Content, n, Request(meth, uri, 1, 1,
                                               [Header(other, v1 + v2)] + [Header(name, D.Print(n))], body)))
  {
    hide *;
    FoldedField(other, v1, blanks, v2);
    var before := [Field(other, v1)] + [Fold(blanks, v2)];
    assert forall i :: 0 <= i < |AddLines([], before)| ==> AddLines([], before)[i].name == other;
    LengthLastAccepted(cast, meth, uri, before, name, n, body);
  }
}
