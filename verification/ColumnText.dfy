/** Column definitions as lines of text, and the form in which the schema differ compares them. */
module ColumnText {
  /* A definition as it stands in a dump or is sent to the database. */
  type Def = string

  const COMMENT: string := "COMMENT"

  predicate White(c: char) {
    c in {' ', '\t', '\n', '\r', '\U{B}', '\U{C}'}
  }

  predicate AllWhite(s: string) {
    forall i :: 0 <= i < |s| ==> White(s[i])
  }

  predicate CommentAt(s: string, i: int) {
    0 <= i <= |s| - |COMMENT| && s[i..i + |COMMENT|] == COMMENT
  }

  /* str.find from position i on. */
  function Find(s: string, i: nat): (r: int)
    ensures r == -1 || (r >= i && CommentAt(s, r))
    ensures forall j :: i <= j < (if r == -1 then |s| else r) ==> !CommentAt(s, j)
    decreases |s| - i
  {
    if i + |COMMENT| > |s| then -1 else if CommentAt(s, i) then i else Find(s, i + 1)
  }

  /* s[0:i]; without a COMMENT i is -1, which in Python means all but the last character. */
  function Cut(s: string): string {
    var i := Find(s, 0);
    if i >= 0 then s[..i] else if |s| > 0 then s[..|s| - 1] else ""
  }

  function Remove(s: string, c: char): (r: string)
    ensures |r| <= |s|
  {
    if |s| == 0 then "" else (if s[0] == c then "" else [s[0]]) + Remove(s[1..], c)
  }

  function StripRight(s: string): (r: string)
    ensures |r| <= |s|
  {
    if |s| > 0 && White(s[|s| - 1]) then StripRight(s[..|s| - 1]) else s
  }

  function StripLeft(s: string): (r: string)
    ensures |r| <= |s|
  {
    if |s| > 0 && White(s[0]) then StripLeft(s[1..]) else s
  }

  function Strip(s: string): (r: string)
    ensures |r| <= |s|
  {
    StripRight(StripLeft(s))
  }

  function Clean(s: string): (r: string)
    ensures |r| <= |s|
  {
    Strip(Remove(Remove(Remove(s, '\n'), '\t'), ','))
  }

  /* The form in which two definitions are compared, and in which a changed one is sent. */
  function Normal(d: Def): Def {
    Clean(Cut(d))
  }

  /** A normal form is not a definition to be normalised again: every pass takes at least one character. */
  lemma NormalShrinks(d: Def)
    ensures d != "" ==> |Normal(d)| < |d|
    ensures Normal(Normal(d)) == Normal(d) <==> Normal(d) == ""
  {
    CutShrinks(d);
    CutShrinks(Normal(d));
  }

  lemma CutShrinks(d: Def)
    ensures |Cut(d)| <= |d| && (d != "" ==> |Cut(d)| < |d|)
  {
  }

  // ----- Lines with a definition in them -----

  predicate Gap(c: char) { White(c) || c == ',' }

  /* Nothing but blanks, line breaks and commas. */
  predicate Blank(s: string) {
    forall i :: 0 <= i < |s| ==> Gap(s[i])
  }

  /* The text of a definition: no line break, tab or COMMENT in it, no blank or comma at its ends. */
  predicate Core(core: string) {
    && core != "" && !Gap(core[0]) && !Gap(core[|core| - 1])
    && '\n' !in core && '\t' !in core && Find(core, 0) == -1
  }

  /* What may stand behind the definition: a comment after any blanks, or commas, blanks and the line break. */
  predicate Trailer(rest: string) {
    COMMENT <= StripLeft(rest) || (Blank(rest) && rest != "" && White(rest[|rest| - 1]))
  }

  /* A line of a table definition for the column definition core. */
  ghost predicate LineOf(line: string, core: string) {
    Core(core) && exists blanks, rest :: AllWhite(blanks) && Trailer(rest) && line == blanks + core + rest
  }

  /** The normal form of a line is the definition in it without its commas, comment or not; so MODIFY sends the
      definition itself exactly when there is no comma in it. */
  lemma NormalOfLine(line: string, core: string)
    requires LineOf(line, core)
    ensures Normal(line) == Remove(core, ',')
    ensures Normal(line) == core <==> ',' !in core
  {
    hide Trailer, AllWhite, Core, Clean, Cut, Remove;
    var blanks, gap := CutLine(line, core);
    CleanLine(blanks, core, gap);
    RemoveSameIff(core, ',');
  }

  /** So two lines are taken for the same definition exactly when their definitions agree up to commas. */
  lemma SameNormalIff(line: string, core: string, line': string, core': string)
    requires LineOf(line, core) && LineOf(line', core')
    ensures Normal(line) == Normal(line') <==> Remove(core, ',') == Remove(core', ',')
  {
    hide Normal, Remove;
    NormalOfLine(line, core);
    NormalOfLine(line', core');
  }

  /** There is at most one definition in a line. */
  lemma CoreUnique(line: string, core: string, core': string)
    requires LineOf(line, core) && LineOf(line, core')
    ensures core == core'
  {
    hide Cut, Find, Trailer;
    var blanks, gap := CutLine(line, core);
    var blanks', gap' := CutLine(line, core');
    SameMiddle(blanks, core, gap, blanks', core', gap');
  }

  lemma SameMiddle(a: string, core: string, b: string, a': string, core': string, b': string)
    requires AllWhite(a) && AllWhite(a') && Blank(b) && Blank(b') && Core(core) && Core(core')
    requires a + core + b == a' + core' + b'
    ensures core == core'
  {
    hide Find;
    var s, n, n' := a + core + b, |a + core|, |a' + core'|;
    assert s[|a|] == core[0] && s[|a'|] == core'[0];
    assert s[n - 1] == core[|core| - 1] && s[n' - 1] == core'[|core'| - 1];
    assert Blank(a) && Blank(a') && s[..|a|] == a && s[..|a'|] == a' && s[n..] == b && s[n'..] == b';
    hide Blank;
    InBlank(s, 0, |a|, |a'|);
    InBlank(s, 0, |a'|, |a|);
    InBlank(s, n, |s|, n' - 1);
    InBlank(s, n', |s|, n - 1);
    assert s[|a|..n] == core && s[|a'|..n'] == core';
  }

  lemma InBlank(s: string, lo: nat, hi: nat, i: int)
    requires lo <= hi <= |s| && Blank(s[lo..hi])
    ensures lo <= i < hi ==> Gap(s[i])
  {
    if lo <= i < hi {
      assert s[lo..hi][i - lo] == s[i];
    }
  }

  /* Where a line is cut. */
  lemma CutLine(line: string, core: string) returns (blanks: string, gap: string)
    requires LineOf(line, core)
    ensures Cut(line) == blanks + core + gap && AllWhite(blanks) && Blank(gap) && Core(core)
  {
    hide Core, Find, Cut;
    var rest;
    blanks, rest :| AllWhite(blanks) && Trailer(rest) && line == blanks + core + rest;
    if COMMENT <= StripLeft(rest) {
      gap := StripLeftSplit(rest);
      CutComment(blanks, core, gap, StripLeft(rest));
      assert line == blanks + core + gap + StripLeft(rest);
    } else {
      gap := rest[..|rest| - 1];
      CutBlank(blanks, core, rest);
    }
  }

  lemma CutComment(blanks: string, core: string, gap: string, tail: string)
    requires AllWhite(blanks) && Core(core) && Blank(gap) && COMMENT <= tail
    ensures Cut(blanks + core + gap + tail) == blanks + core + gap
  {
    hide Core, Find, AllWhite, Blank;
    var front := blanks + core + gap;
    forall j | 0 <= j < |front| ensures !CommentAt(front + tail, j) {
      NoCommentBefore(blanks, core, gap, tail, j);
    }
    assert (front + tail)[|front|..|front| + |COMMENT|] == tail[..|COMMENT|];
    FoundAt(front + tail, |front|);
    assert (front + tail)[..|front|] == front;
  }

  lemma CutBlank(blanks: string, core: string, rest: string)
    requires AllWhite(blanks) && Core(core) && Blank(rest) && rest != ""
    ensures Cut(blanks + core + rest) == blanks + core + rest[..|rest| - 1]
  {
    hide Core, Find, AllWhite, Blank;
    var line := blanks + core + rest;
    assert line == line + "";
    forall j | 0 <= j < |line| ensures !CommentAt(line, j) {
      NoCommentBefore(blanks, core, rest, "", j);
    }
    NotFound(line);
  }

  lemma FoundAt(s: string, i: nat)
    requires CommentAt(s, i) && forall j :: 0 <= j < i ==> !CommentAt(s, j)
    ensures Find(s, 0) == i
  {
  }

  /* A blank or a comma at m is not part of the word. */
  lemma NoComment(s: string, j: nat, m: nat)
    requires j <= m < j + |COMMENT| && m < |s| && Gap(s[m])
    ensures !CommentAt(s, j)
  {
    if j + |COMMENT| <= |s| {
      assert s[m] == s[j..j + |COMMENT|][m - j];
    }
  }

  /* COMMENT does not overlap itself. */
  lemma NoOverlap(s: string, j: nat, n: nat)
    requires j < n < j + |COMMENT| && CommentAt(s, n)
    ensures !CommentAt(s, j)
  {
    assert s[n] == s[n..n + |COMMENT|][0];
    if j + |COMMENT| <= |s| {
      assert s[n] == s[j..j + |COMMENT|][n - j];
    }
  }

  lemma NoCommentBefore(blanks: string, core: string, gap: string, tail: string, j: nat)
    requires AllWhite(blanks) && Core(core) && Blank(gap) && (tail == "" || COMMENT <= tail)
    requires j < |blanks + core + gap|
    ensures !CommentAt(blanks + core + gap + tail, j)
  {
    var line, n, i := blanks + core + gap + tail, |blanks + core|, j - |blanks|;
    if i < 0 {
      assert line[j] == blanks[j];
      NoComment(line, j, j);
    } else if j + |COMMENT| <= n {
      assert line[j..j + |COMMENT|] == core[i..i + |COMMENT|];
      assert !CommentAt(core, i);
    } else if n <= j {
      assert line[j] == gap[j - n];
      NoComment(line, j, j);
    } else if gap != "" {
      assert line[n] == gap[0];
      NoComment(line, j, n);
    } else if tail != "" {
      assert line[n..n + |COMMENT|] == tail[..|COMMENT|];
      NoOverlap(line, j, n);
    }
  }

  lemma NotFound(s: string)
    requires forall j :: 0 <= j < |s| ==> !CommentAt(s, j)
    ensures Find(s, 0) == -1
  {
  }

  lemma {:induction false} StripLeftSplit(s: string) returns (gap: string)
    ensures AllWhite(gap) && s == gap + StripLeft(s)
  {
    if |s| > 0 && White(s[0]) {
      gap := StripLeftSplit(s[1..]);
      gap := [s[0]] + gap;
    } else {
      gap := "";
    }
  }

  lemma {:induction false} RemoveAppend(s: string, t: string, c: char)
    ensures Remove(s + t, c) == Remove(s, c) + Remove(t, c)
  {
    if |s| == 0 {
      assert s + t == t;
    } else {
      assert (s + t)[1..] == s[1..] + t;
      RemoveAppend(s[1..], t, c);
    }
  }

  lemma {:induction false} RemoveAbsent(s: string, c: char)
    requires c !in s
    ensures Remove(s, c) == s
  {
    if |s| == 0 {
    } else {
      RemoveAbsent(s[1..], c);
      assert [s[0]] + s[1..] == s;
    }
  }

  lemma {:induction false} RemoveGone(s: string, c: char)
    ensures c !in Remove(s, c)
  {
    if |s| == 0 {
    } else {
      RemoveGone(s[1..], c);
    }
  }

  lemma RemoveSameIff(s: string, c: char)
    ensures Remove(s, c) == s <==> c !in s
  {
    hide Remove;
    RemoveGone(s, c);
    if c !in s {
      RemoveAbsent(s, c);
    }
  }

  lemma {:induction false} RemoveBlank(s: string, c: char)
    requires Blank(s)
    ensures Blank(Remove(s, c)) && c !in Remove(s, c)
    ensures ',' !in s ==> ',' !in Remove(s, c)
  {
    if |s| == 0 {
    } else {
      RemoveBlank(s[1..], c);
    }
  }

  lemma RemoveAround(a: string, core: string, b: string, c: char)
    requires Blank(a) && Blank(b) && c !in core
    ensures Remove(a + core + b, c) == Remove(a, c) + core + Remove(b, c)
    ensures Blank(Remove(a, c)) && Blank(Remove(b, c)) && c !in Remove(a, c) && c !in Remove(b, c)
  {
    RemoveAppend(a + core, b, c);
    RemoveAppend(a, core, c);
    RemoveAbsent(core, c);
    RemoveBlank(a, c);
    RemoveBlank(b, c);
  }

  lemma CoreEnds(core: string)
    requires Core(core)
    ensures '\n' !in core && '\t' !in core
    ensures var r := Remove(core, ','); r != "" && !White(r[0]) && !White(r[|r| - 1])
  {
    var n := |core| - 1;
    assert core == core[..n] + [core[n]] && core == [core[0]] + core[1..];
    RemoveAppend(core[..n], [core[n]], ',');
    RemoveAppend([core[0]], core[1..], ',');
  }

  lemma CleanLine(a: string, core: string, b: string)
    requires AllWhite(a) && Core(core) && Blank(b)
    ensures Clean(a + core + b) == Remove(core, ',')
  {
    hide Remove, StripLeft, StripRight, Core;
    CoreEnds(core);
    RemoveAround(a, core, b, '\n');
    var a1, b1 := Remove(a, '\n'), Remove(b, '\n');
    RemoveAround(a1, core, b1, '\t');
    var a2, b2 := Remove(a1, '\t'), Remove(b1, '\t');
    RemoveAppend(a2 + core, b2, ',');
    RemoveAppend(a2, core, ',');
    RemoveBlank(a2, ',');
    RemoveBlank(b2, ',');
    var a3, r, b3 := Remove(a2, ','), Remove(core, ','), Remove(b2, ',');
    assert a3 + r + b3 == a3 + (r + b3);
    StripLeftOff(a3, r + b3);
    StripRightOff(r, b3);
  }

  lemma {:induction false} StripLeftOff(a: string, s: string)
    requires AllWhite(a) && s != "" && !White(s[0])
    ensures StripLeft(a + s) == s
  {
    if |a| == 0 {
      assert a + s == s;
    } else {
      assert (a + s)[1..] == a[1..] + s;
      StripLeftOff(a[1..], s);
    }
  }

  lemma {:induction false} StripRightOff(s: string, b: string)
    requires AllWhite(b) && s != "" && !White(s[|s| - 1])
    ensures StripRight(s + b) == s
    decreases |b|
  {
    if |b| == 0 {
      assert s + b == s;
    } else {
      var n := |b| - 1;
      assert (s + b)[..|s| + n] == s + b[..n];
      StripRightOff(s, b[..n]);
    }
  }

  /* Taking the commas out of a line leaves a line of the definition without its commas. */
  lemma LineWithoutCommas(line: string, core: string)
    requires LineOf(line, core) && Core(Remove(core, ','))
    ensures LineOf(Remove(line, ','), Remove(core, ','))
  {
    var blanks, rest :| AllWhite(blanks) && Trailer(rest) && line == blanks + core + rest;
    hide Trailer, Remove;
    RemoveAppend(blanks + core, rest, ',');
    RemoveAppend(blanks, core, ',');
    RemoveAbsent(blanks, ',');
    TrailerWithoutCommas(rest);
  }

  /** So ADD, which takes the commas out, sends the definition of a line exactly when there is no comma in it. */
  lemma AddSendsIff(line: string, core: string)
    requires LineOf(line, core)
    ensures LineOf(Remove(line, ','), core) <==> ',' !in core
  {
    hide Remove, Trailer, Core;
    RemoveGone(line, ',');
    if ',' !in core {
      RemoveAbsent(core, ',');
      LineWithoutCommas(line, core);
    }
  }

  lemma TrailerWithoutCommas(rest: string)
    requires Trailer(rest)
    ensures Trailer(Remove(rest, ','))
  {
    hide Remove, White;
    if COMMENT <= StripLeft(rest) {
      var gap := StripLeftSplit(rest);
      var more := StripLeft(rest)[|COMMENT|..];
      CommentWithoutCommas(gap, more);
      assert rest == gap + (COMMENT + more);
    } else {
      LastIsKept(rest);
      RemoveBlank(rest, ',');
    }
  }

  lemma CommentWithoutCommas(gap: string, more: string)
    requires AllWhite(gap)
    ensures COMMENT <= StripLeft(Remove(gap + (COMMENT + more), ','))
  {
    hide Remove;
    RemoveAppend(gap, COMMENT + more, ',');
    RemoveAppend(COMMENT, more, ',');
    RemoveAbsent(gap, ',');
    RemoveAbsent(COMMENT, ',');
    StripLeftOff(gap, COMMENT + Remove(more, ','));
  }

  lemma LastIsKept(s: string)
    requires s != "" && White(s[|s| - 1])
    ensures var r := Remove(s, ','); r != "" && White(r[|r| - 1])
  {
    hide Remove;
    var n := |s| - 1;
    assert s == s[..n] + [s[n]];
    RemoveAppend(s[..n], [s[n]], ',');
    RemoveAbsent([s[n]], ',');
  }

  /* Given a line or the bare definition in it, the database prints a line of the same definition. */
  ghost predicate PrintsLines(dump: Def -> Def) {
    forall x, core :: Core(core) && (x == core || LineOf(x, core)) ==> LineOf(dump(x), core)
  }

  /** Printing lines as they are and putting definitions on a line of their own is such a form. */
  lemma EchoPrintsLines()
    ensures PrintsLines(x => if Core(x) then x + "\n" else x)
  {
    hide Core, Trailer;
    var dump := (x: Def) => if Core(x) then x + "\n" else x;
    forall x, core | Core(core) && (x == core || LineOf(x, core))
      ensures LineOf(dump(x), core)
    {
      if LineOf(x, core) {
        LineNotCore(x, core);
      } else {
        OnALine(core);
      }
    }
  }

  lemma OnALine(core: string)
    requires Core(core)
    ensures LineOf(core + "\n", core)
  {
    assert AllWhite("") && Trailer("\n") && core + "\n" == "" + core + "\n";
  }

  lemma LineNotCore(line: string, core: string)
    requires LineOf(line, core)
    ensures !Core(line)
  {
    var blanks, rest :| AllWhite(blanks) && Trailer(rest) && line == blanks + core + rest;
    if COMMENT <= StripLeft(rest) {
      var gap := StripLeftSplit(rest);
      var n := |blanks + core + gap|;
      assert line[n..n + |COMMENT|] == StripLeft(rest)[..|COMMENT|] == COMMENT;
      assert CommentAt(line, n);
    } else {
      assert line[|line| - 1] == rest[|rest| - 1];
    }
  }

  // ----- The same in plain characters -----

  lemma WhiteMeans(c: char)
    ensures White(c) <==> c as int == 32 || 9 <= c as int <= 13
  {
  }

  /** Removing a character takes out exactly that one, everywhere, and keeps the order of the others. */
  lemma RemoveMeans(s: string, t: string, c: char, d: char)
    ensures Remove(s + t, c) == Remove(s, c) + Remove(t, c)
    ensures Remove([d], c) == if d == c then "" else [d]
  {
    RemoveAppend(s, t, c);
    if d == c {
      RemoveItself(c);
    } else {
      RemoveAbsent([d], c);
    }
  }

  /** A definition of printable characters without a comma is its own normal form on every line it stands on. */
  lemma WrittenOut(core: string, more: string)
    requires core != "" && core[0] as int > 32 && core[|core| - 1] as int > 32
    requires forall i :: 0 <= i < |core| ==> core[i] as int >= 32 && core[i] != ','
    requires forall i, j :: 0 <= i && i + 7 == j <= |core| ==> core[i..j] != "COMMENT"
    ensures Normal("    " + core + " COMMENT" + more) == core
    ensures Normal("  " + core + ",\n") == core && Normal("\t" + core + "\n") == core
  {
    NotFound(core);
    assert Core(core);
    hide Core, Normal;
    NormalOnLine("    ", core, " COMMENT" + more);
    NormalOnLine("  ", core, ",\n");
    NormalOnLine("\t", core, "\n");
    assert "    " + core + (" COMMENT" + more) == "    " + core + " COMMENT" + more;
  }

  lemma NormalOnLine(blanks: string, core: string, rest: string)
    requires Core(core) && ',' !in core && blanks in {"    ", "  ", "\t"}
    requires " COMMENT" <= rest || rest == ",\n" || rest == "\n"
    ensures Normal(blanks + core + rest) == core
  {
    hide Core, Normal;
    assert AllWhite(blanks);
    if " COMMENT" <= rest {
      assert rest == " " + rest[1..] && COMMENT <= rest[1..];
      StripLeftOff(" ", rest[1..]);
    }
    assert Trailer(rest);
    assert LineOf(blanks + core + rest, core);
    NormalOfLine(blanks + core + rest, core);
  }

  // ----- What becomes of a definition with a comma in it -----

  const BEFORE: string := "`recharge_rmb` decimal(13"
  const AFTER: string := "2) NOT NULL"

  /** ADD and MODIFY send decimal(132) for the column of the file that is a decimal(13,2). */
  lemma DecimalLosesComma(line: string)
    requires LineOf(line, BEFORE + "," + AFTER)
    ensures Normal(line) == BEFORE + AFTER
    ensures LineOf(Remove(line, ','), BEFORE + AFTER) && !LineOf(Remove(line, ','), BEFORE + "," + AFTER)
  {
    hide Normal, Find;
    assert ',' !in BEFORE && ',' !in AFTER;
    OneComma(BEFORE, AFTER);
    NormalOfLine(line, BEFORE + "," + AFTER);
    DecimalIsCore();
    LineWithoutCommas(line, BEFORE + "," + AFTER);
    AddSendsIff(line, BEFORE + "," + AFTER);
  }

  /* There is such a line. */
  lemma DecimalLine()
    ensures LineOf("    " + (BEFORE + "," + AFTER) + " COMMENT 'x',\n", BEFORE + "," + AFTER)
  {
    hide Core;
    DecimalIsCore();
    var blanks, rest, word := "    ", " COMMENT 'x',\n", "COMMENT 'x',\n";
    assert AllWhite(blanks) && AllWhite(" ") && rest == " " + word && COMMENT <= word;
    StripLeftOff(" ", word);
    assert Trailer(rest);
  }

  lemma OneComma(before: string, after: string)
    requires ',' !in before && ',' !in after
    ensures Remove(before + "," + after, ',') == before + after && ',' in before + "," + after
  {
    hide Remove;
    RemoveItself(',');
    RemoveAppend(before + ",", after, ',');
    RemoveAppend(before, ",", ',');
    RemoveAbsent(before, ',');
    RemoveAbsent(after, ',');
    assert before + "" == before;
    assert (before + "," + after)[|before|] == ',';
  }

  lemma RemoveItself(c: char)
    ensures Remove([c], c) == ""
  {
  }

  predicate Tame(s: string) {
    forall i :: 0 <= i < |s| ==> s[i] !in {'C', '\n', '\t'}
  }

  lemma TameIsCore(s: string)
    requires Tame(s) && s != "" && !Gap(s[0]) && !Gap(s[|s| - 1])
    ensures Core(s)
  {
    hide Find;
    NoLetter(s);
  }

  lemma DecimalIsCore()
    ensures Core(BEFORE + AFTER) && Core(BEFORE + "," + AFTER)
  {
    hide Core, White;
    assert Tame(BEFORE) && Tame(AFTER);
    TameTogether(BEFORE, "", AFTER);
    TameTogether(BEFORE, ",", AFTER);
    assert !Gap(BEFORE[0]) && !Gap(AFTER[|AFTER| - 1]) by { Ends(); }
    assert BEFORE + "" + AFTER == BEFORE + AFTER;
    TameIsCore(BEFORE + AFTER);
    TameIsCore(BEFORE + "," + AFTER);
  }

  lemma Ends()
    ensures !Gap('`') && !Gap('L') && BEFORE[0] == '`' && AFTER[|AFTER| - 1] == 'L'
  {
  }

  lemma TameTogether(a: string, b: string, c: string)
    requires Tame(a) && Tame(b) && Tame(c) && a != "" && c != ""
    ensures Tame(a + b + c)
    ensures (a + b + c)[0] == a[0] && (a + b + c)[|a + b + c| - 1] == c[|c| - 1]
  {
  }

  lemma NoLetter(s: string)
    requires 'C' !in s
    ensures Find(s, 0) == -1
  {
    forall j | 0 <= j < |s| ensures !CommentAt(s, j) {
      if j + |COMMENT| <= |s| {
        assert s[j..j + |COMMENT|][0] == s[j];
      }
    }
    NotFound(s);
  }
}
