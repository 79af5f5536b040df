/**
 FormatFile of FormatDosFiles.py: five regular-expression passes over the bytes of a file.
 They are shown to compute what a line-by-line description says, to reach a normal form, to
 leave normal files alone, and to lose no text.
 */
module FormatDosFiles {
  import opened Words

  const TAB: Byte := 9
  const LF: Byte := 10
  const CR: Byte := 13
  const SPACE: Byte := 32
  const CRLF: seq<Byte> := [CR, LF]

  type Text = seq<Byte>

  predicate IsBlank(b: Byte) { b == SPACE || b == TAB }

  // ----- The five passes

  /** re.sub('([^\r])\n', '\1\r\n'): leftmost matches, each consuming both bytes. */
  function InsertCr(s: Text): Text {
    if s == [] then []
    else if |s| >= 2 && s[0] != CR && s[1] == LF then [s[0], CR, LF] + InsertCr(s[2..])
    else [s[0]] + InsertCr(s[1..])
  }

  /** re.sub('^\n', '\r\n', MULTILINE): `bol` says that the text starts a line. */
  function FixEmptyLines(s: Text, bol: bool): Text {
    if s == [] then []
    else if bol && s[0] == LF then CRLF + FixEmptyLines(s[1..], true)
    else [s[0]] + FixEmptyLines(s[1..], s[0] == LF)
  }

  predicate IsEol(b: Byte) { b == CR || b == LF }

  /** re.sub('([^\r\n])$', '\1\r\n'): '$' is the end of the text or just before a final '\n'. */
  function EndLastLine(s: Text): Text {
    if s == [] then []
    else if !IsEol(s[|s| - 1]) then s + CRLF
    else if |s| >= 2 && s[|s| - 1] == LF && !IsEol(s[|s| - 2]) then s[..|s| - 1] + CRLF + [LF]
    else s
  }

  /** The length of the run of blanks that starts the text. */
  function BlankRun(s: Text): (n: nat)
    ensures n <= |s|
    ensures forall k :: 0 <= k < n ==> IsBlank(s[k])
    ensures n < |s| ==> !IsBlank(s[n])
  {
    if s != [] && IsBlank(s[0]) then 1 + BlankRun(s[1..]) else 0
  }

  /** re.sub('[ \t]+(\r\n)', '\1') */
  function StripTrailingBlanks(s: Text): Text
    decreases |s|
  {
    if s == [] then []
    else
      var n := BlankRun(s);
      if n >= 1 && CRLF <= s[n..] then CRLF + StripTrailingBlanks(s[n + 2..])
      else [s[0]] + StripTrailingBlanks(s[1..])
  }

  /** re.sub('\t', '  ') */
  function ExpandTabs(s: Text): Text {
    if s == [] then []
    else (if s[0] == TAB then [SPACE, SPACE] else [s[0]]) + ExpandTabs(s[1..])
  }

  /** FormatFile's transformation of the content. */
  function Format(s: Text): Text {
    ExpandTabs(StripTrailingBlanks(EndLastLine(FixEmptyLines(InsertCr(s), true))))
  }

  // ----- What the passes are for

  /** A line without the carriage return that belongs to its line feed. */
  function DropCr(line: Text): Text {
    if line != [] && line[|line| - 1] == CR then line[..|line| - 1] else line
  }

  function TrimRight(line: Text): Text {
    if line != [] && IsBlank(line[|line| - 1]) then TrimRight(line[..|line| - 1]) else line
  }

  function FormatLine(line: Text): Text {
    ExpandTabs(TrimRight(DropCr(line))) + CRLF
  }

  /** Text after the last line feed: it becomes a line, unless it ends in a bare carriage return. */
  function FormatLast(line: Text): Text {
    if line == [] then []
    else if line[|line| - 1] == CR then ExpandTabs(line)
    else FormatLine(line)
  }

  /** The length of the first line; the length of the text if it has no line feed. */
  function FirstLine(s: Text): (i: nat)
    ensures i <= |s|
    ensures LF !in s[..i]
    ensures i < |s| ==> s[i] == LF
  {
    if s == [] || s[0] == LF then 0
    else
      assert s[..1 + FirstLine(s[1..])] == [s[0]] + s[1..][..FirstLine(s[1..])];
      1 + FirstLine(s[1..])
  }

  /** Line by line: ended by CRLF, no trailing blanks, no tabs. */
  function FormatLines(s: Text): Text
    decreases |s|
  {
    var i := FirstLine(s);
    if i == |s| then FormatLast(s) else FormatLine(s[..i]) + FormatLines(s[i + 1..])
  }

  // ----- Passes one and two: every line feed gets a carriage return

  /** `cr` says that the byte before the text is a carriage return. */
  function ToCrlf(s: Text, cr: bool): Text {
    if s == [] then []
    else if s[0] == LF && !cr then CRLF + ToCrlf(s[1..], false)
    else [s[0]] + ToCrlf(s[1..], s[0] == CR)
  }

  lemma FixCons(a: Byte, b: Text, bol: bool)
    ensures FixEmptyLines([a] + b, bol) == (if bol && a == LF then CRLF else [a]) + FixEmptyLines(b, a == LF)
  {
    assert ([a] + b)[1..] == b;
  }

  lemma FixAfterMatch(a: Byte, b: Text, bol: bool)
    ensures FixEmptyLines([a, CR, LF] + b, bol)
            == (if bol && a == LF then CRLF else [a]) + (CRLF + FixEmptyLines(b, true))
  {
    hide FixEmptyLines;
    assert [a, CR, LF] + b == [a] + ([CR] + ([LF] + b));
    FixCons(a, [CR] + ([LF] + b), bol);
    FixCons(CR, [LF] + b, a == LF);
    FixCons(LF, b, false);
  }

  /** The first pass misses some line feeds; the second finds exactly those. */
  lemma {:induction false} TwoPassesMakeCrlf(s: Text, bol: bool, cr: bool)
    requires !(bol && cr)
    requires !bol && !cr ==> s == [] || s[0] != LF
    ensures FixEmptyLines(InsertCr(s), bol) == ToCrlf(s, cr)
    decreases |s|
  {
    if s != [] {
      hide FixEmptyLines;
      if |s| >= 2 && s[0] != CR && s[1] == LF {
        TwoPassesMakeCrlf(s[2..], true, false);
        FixAfterMatch(s[0], InsertCr(s[2..]), bol);
        ToCrlfTwice(s, cr);
      } else {
        TwoPassesMakeCrlf(s[1..], s[0] == LF, s[0] == CR);
        FixCons(s[0], InsertCr(s[1..]), bol);
      }
    }
  }

  lemma ToCrlfTwice(s: Text, cr: bool)
    requires |s| >= 2 && s[0] != CR && s[1] == LF
    ensures ToCrlf(s, cr) == (if s[0] == LF && !cr then CRLF else [s[0]]) + (CRLF + ToCrlf(s[2..], false))
  {
    assert s[1..][0] == LF && s[1..][1..] == s[2..];
    assert ToCrlf(s[1..], false) == CRLF + ToCrlf(s[2..], false);
  }

  /** A line and its line feed with the carriage return in place; `cr` is the byte before the line. */
  function EndedLine(line: Text, cr: bool): Text {
    if line == [] then (if cr then [LF] else CRLF) else DropCr(line) + CRLF
  }

  lemma EndedLineCons(line: Text, cr: bool)
    requires line != []
    ensures EndedLine(line, cr) == [line[0]] + EndedLine(line[1..], line[0] == CR)
  {
    if |line| > 1 {
      assert DropCr(line) == [line[0]] + DropCr(line[1..]);
    }
  }

  lemma EndedEmptyLine(cr: bool)
    ensures EndedLine([], cr) == if cr then [LF] else CRLF
  {
  }

  lemma ToCrlfCons(a: Byte, t: Text, cr: bool)
    ensures ToCrlf([a] + t, cr) == (if a == LF && !cr then CRLF else [a]) + ToCrlf(t, a == CR)
  {
    assert ([a] + t)[1..] == t;
  }

  lemma {:induction false} CrlfOfLine(line: Text, rest: Text, cr: bool)
    requires LF !in line
    ensures ToCrlf(line + ([LF] + rest), cr) == EndedLine(line, cr) + ToCrlf(rest, false)
    decreases |line|
  {
    hide ToCrlf, EndedLine, DropCr;
    if line == [] {
      assert line + ([LF] + rest) == [LF] + rest;
      ToCrlfCons(LF, rest, cr);
      EndedEmptyLine(cr);
    } else {
      var a, more := line[0], line[1..];
      assert line + ([LF] + rest) == [a] + (more + ([LF] + rest));
      assert a in line && forall b :: b in more ==> b in line;
      ToCrlfCons(a, more + ([LF] + rest), cr);
      CrlfOfLine(more, rest, a == CR);
      EndedLineCons(line, cr);
      assert [a] + (EndedLine(more, a == CR) + ToCrlf(rest, false)) == [a] + EndedLine(more, a == CR) + ToCrlf(rest, false);
    }
  }

  lemma {:induction false} CrlfOfLast(line: Text, cr: bool)
    requires LF !in line
    ensures ToCrlf(line, cr) == line
    decreases |line|
  {
    if line != [] {
      CrlfOfLast(line[1..], line[0] == CR);
    }
  }

  // ----- Passes three and four

  /** No line feed stands without a carriage return. */
  ghost predicate AllCrlf(s: Text) {
    forall i :: 0 <= i < |s| && s[i] == LF ==> 0 < i && s[i - 1] == CR
  }

  lemma {:induction false} ToCrlfAllCrlf(s: Text, cr: bool)
    ensures forall i :: 0 <= i < |ToCrlf(s, cr)| && ToCrlf(s, cr)[i] == LF ==>
              if i == 0 then cr else ToCrlf(s, cr)[i - 1] == CR
    decreases |s|
  {
    if s != [] {
      ToCrlfAllCrlf(s[1..], s[0] == CR);
    }
  }

  /** The third pass only looks at the last line. */
  lemma EndLastLineOfRest(line: Text, rest: Text)
    requires AllCrlf(line + CRLF + rest)
    ensures EndLastLine(line + CRLF + rest) == line + CRLF + EndLastLine(rest)
  {
    var s := line + CRLF + rest;
    assert s[|s| - 1] == if rest == [] then LF else rest[|rest| - 1];
    if rest == [] {
      assert s[|s| - 2] == CR;
    } else if |rest| >= 2 {
      assert s[|s| - 2] == rest[|rest| - 2];
    } else {
      assert s[|s| - 2] == LF;
    }
  }

  lemma {:induction false} TrimRightOfCons(line: Text)
    ensures BlankRun(line) == |line| ==> TrimRight(line) == []
    ensures BlankRun(line) < |line| ==> TrimRight(line) == [line[0]] + TrimRight(line[1..])
    decreases |line|
  {
    var last := |line| - 1;
    if last > 0 && IsBlank(line[last]) {
      TrimRightOfCons(line[..last]);
      assert line[1..][..last - 1] == line[..last][1..];
      BlankRunOfPrefix(line);
    } else if last > 0 {
      assert line[1..][last - 1] == line[last];
    }
  }

  lemma BlankRunOfPrefix(line: Text)
    requires |line| >= 2 && IsBlank(line[|line| - 1])
    ensures BlankRun(line) == |line| <==> BlankRun(line[..|line| - 1]) == |line| - 1
  {
    var n, m := BlankRun(line), BlankRun(line[..|line| - 1]);
    if n < |line| {
      assert n < |line| - 1 && line[..|line| - 1][n] == line[n];
    }
    if m < |line| - 1 {
      assert line[..|line| - 1][m] == line[m];
    }
  }

  lemma {:induction false} BlankRunBeforeCrlf(line: Text, rest: Text)
    ensures BlankRun(line + CRLF + rest) == BlankRun(line)
    decreases |line|
  {
    if line != [] && IsBlank(line[0]) {
      assert (line + CRLF + rest)[1..] == line[1..] + CRLF + rest;
      BlankRunBeforeCrlf(line[1..], rest);
    }
  }

  lemma StripNonBlank(a: Byte, rest: Text)
    requires !IsBlank(a)
    ensures StripTrailingBlanks([a] + rest) == [a] + StripTrailingBlanks(rest)
  {
    assert ([a] + rest)[1..] == rest;
  }

  lemma StripAtLineEnd(rest: Text)
    ensures StripTrailingBlanks(CRLF + rest) == CRLF + StripTrailingBlanks(rest)
  {
    hide StripTrailingBlanks;
    assert CRLF + rest == [CR] + ([LF] + rest);
    StripNonBlank(CR, [LF] + rest);
    StripNonBlank(LF, rest);
  }

  /** Blanks that are not followed by CRLF survive. */
  lemma NoMatchInsideLine(line: Text, rest: Text)
    requires LF !in line && BlankRun(line) < |line|
    ensures var s := line + CRLF + rest; !(CRLF <= s[BlankRun(line)..])
  {
    var s, n := line + CRLF + rest, BlankRun(line);
    assert s[n + 1] == if n + 1 < |line| then line[n + 1] else CR;
    assert s[n..][1] == s[n + 1];
  }

  lemma StripMatch(blanks: Text, rest: Text)
    requires blanks != [] && BlankRun(blanks) == |blanks|
    ensures StripTrailingBlanks(blanks + CRLF + rest) == CRLF + StripTrailingBlanks(rest)
  {
    var s, n := blanks + CRLF + rest, |blanks|;
    BlankRunBeforeCrlf(blanks, rest);
    assert s[n..] == CRLF + rest;
    assert s[n + 2..] == rest;
  }

  lemma StripNoMatch(a: Byte, line: Text, rest: Text)
    requires LF !in [a] + line && BlankRun([a] + line) < 1 + |line|
    ensures StripTrailingBlanks([a] + line + CRLF + rest) == [a] + StripTrailingBlanks(line + CRLF + rest)
  {
    hide BlankRun;
    var s := [a] + line + CRLF + rest;
    BlankRunBeforeCrlf([a] + line, rest);
    NoMatchInsideLine([a] + line, rest);
    assert s[1..] == line + CRLF + rest;
  }

  /** The fourth pass trims a line that ends in CRLF and goes on behind it. */
  lemma {:induction false} StripLine(line: Text, rest: Text)
    requires LF !in line
    ensures StripTrailingBlanks(line + CRLF + rest) == TrimRight(line) + CRLF + StripTrailingBlanks(rest)
    decreases |line|
  {
    hide TrimRight, BlankRun, StripTrailingBlanks;
    TrimRightOfCons(line);
    if line == [] {
      assert line + CRLF + rest == CRLF + rest;
      StripAtLineEnd(rest);
    } else if BlankRun(line) == |line| {
      StripMatch(line, rest);
    } else {
      var a, more := line[0], line[1..];
      assert line == [a] + more;
      StripNoMatch(a, more, rest);
      StripLine(more, rest);
    }
  }

  lemma NoCrlfWithoutLf(s: Text, n: nat)
    requires LF !in s && n <= |s|
    ensures !(CRLF <= s[n..])
  {
    if |s[n..]| >= 2 {
      assert s[n..][1] == s[n + 1] && s[n + 1] in s;
    }
  }

  lemma StripNoCrlf(line: Text)
    requires line != [] && LF !in line
    ensures StripTrailingBlanks(line) == [line[0]] + StripTrailingBlanks(line[1..])
  {
    hide BlankRun;
    NoCrlfWithoutLf(line, BlankRun(line));
  }

  lemma {:induction false} StripLast(line: Text)
    requires LF !in line
    ensures StripTrailingBlanks(line) == line
    decreases |line|
  {
    if line != [] {
      hide StripTrailingBlanks;
      assert forall b :: b in line[1..] ==> b in line;
      StripNoCrlf(line);
      StripLast(line[1..]);
      assert [line[0]] + line[1..] == line;
    }
  }

  lemma {:induction false} ExpandTabsConcat(a: Text, b: Text)
    ensures ExpandTabs(a + b) == ExpandTabs(a) + ExpandTabs(b)
    decreases |a|
  {
    if a == [] {
      assert a + b == b;
    } else {
      assert (a + b)[1..] == a[1..] + b;
      ExpandTabsConcat(a[1..], b);
    }
  }

  lemma ExpandTabsOfLine(line: Text, rest: Text)
    ensures ExpandTabs(line + CRLF + rest) == ExpandTabs(line) + CRLF + ExpandTabs(rest)
  {
    ExpandTabsConcat(line + CRLF, rest);
    ExpandTabsConcat(line, CRLF);
    assert CRLF[1..] == [LF];
    assert ExpandTabs([LF]) == [LF];
    assert ExpandTabs(CRLF) == CRLF;
  }

  // ----- The five passes compute the line-by-line description

  function LaterPasses(s: Text): Text {
    ExpandTabs(StripTrailingBlanks(EndLastLine(s)))
  }

  lemma PassesOnFirstLine(line: Text, rest: Text)
    requires LF !in line
    ensures LaterPasses(ToCrlf(line + [LF] + rest, false)) == FormatLine(line) + LaterPasses(ToCrlf(rest, false))
  {
    hide EndLastLine, StripTrailingBlanks, ExpandTabs, TrimRight, ToCrlf;
    var body, tail := DropCr(line), ToCrlf(rest, false);
    var s := line + [LF] + rest;
    CrlfOfLine(line, rest, false);
    assert s == line + ([LF] + rest);
    assert EndedLine(line, false) == body + CRLF;
    ToCrlfAllCrlf(s, false);
    EndLastLineOfRest(body, tail);
    StripLine(body, EndLastLine(tail));
    ExpandTabsOfLine(TrimRight(body), StripTrailingBlanks(EndLastLine(tail)));
  }

  lemma PassesOnLastLine(line: Text)
    requires LF !in line
    ensures LaterPasses(ToCrlf(line, false)) == FormatLast(line)
  {
    hide StripTrailingBlanks, ExpandTabs, TrimRight, ToCrlf;
    CrlfOfLast(line, false);
    StripLast(line);
    if line == [] {
      ExpandTabsBytes([]);
    } else if line[|line| - 1] != CR {
      assert DropCr(line) == line;
      assert line + CRLF + [] == line + CRLF;
      StripLine(line, []);
      StripLast([]);
      ExpandTabsOfLine(TrimRight(line), []);
      ExpandTabsBytes([]);
    }
  }

  lemma {:induction false} LaterPassesByLine(s: Text)
    ensures LaterPasses(ToCrlf(s, false)) == FormatLines(s)
    decreases |s|
  {
    hide LaterPasses, FormatLine, FormatLast, ToCrlf;
    var i := FirstLine(s);
    if i == |s| {
      assert s[..i] == s;
      PassesOnLastLine(s);
    } else {
      assert s == s[..i] + [LF] + s[i + 1..];
      PassesOnFirstLine(s[..i], s[i + 1..]);
      LaterPassesByLine(s[i + 1..]);
    }
  }

  /** For every byte string, the five passes are the line-by-line formatter. */
  lemma FormatIsLineByLine(s: Text)
    ensures Format(s) == FormatLines(s)
  {
    TwoPassesMakeCrlf(s, true, false);
    LaterPassesByLine(s);
  }

  // ----- Normal form

  ghost predicate NormalForm(t: Text) {
    && AllCrlf(t)
    && NoBlankBeforeCrlf(t)
    && TAB !in t
    && (t != [] ==> IsEol(t[|t| - 1]))
  }

  ghost predicate NoBlankBeforeCrlf(t: Text) {
    forall i :: 1 < i < |t| && t[i] == LF && t[i - 1] == CR ==> !IsBlank(t[i - 2])
  }

  lemma {:induction false} ExpandTabsBytes(s: Text)
    ensures TAB !in ExpandTabs(s)
    ensures forall b :: b in ExpandTabs(s) ==> b in s || b == SPACE
    ensures TAB !in s ==> ExpandTabs(s) == s
    ensures s == [] <==> ExpandTabs(s) == []
    ensures s != [] ==> ExpandTabs(s)[|ExpandTabs(s)| - 1] == if s[|s| - 1] == TAB then SPACE else s[|s| - 1]
    decreases |s|
  {
    if s != [] {
      ExpandTabsBytes(s[1..]);
    }
  }

  lemma {:induction false} TrimRightBytes(s: Text)
    ensures TrimRight(s) <= s
    ensures TrimRight(s) != [] ==> !IsBlank(TrimRight(s)[|TrimRight(s)| - 1])
    ensures s == [] || !IsBlank(s[|s| - 1]) ==> TrimRight(s) == s
    decreases |s|
  {
    if s != [] && IsBlank(s[|s| - 1]) {
      TrimRightBytes(s[..|s| - 1]);
    }
  }

  lemma NormalAfterLine(text: Text, rest: Text)
    requires LF !in text && TAB !in text
    requires text != [] ==> !IsBlank(text[|text| - 1])
    requires NormalForm(rest)
    ensures NormalForm(text + CRLF + rest)
  {
    var t, n := text + CRLF + rest, |text|;
    assert forall i :: 0 <= i < n ==> t[i] == text[i];
    assert t[n] == CR && t[n + 1] == LF;
    assert forall i :: n + 2 <= i < |t| ==> t[i] == rest[i - n - 2];
  }

  lemma FormattedLine(line: Text)
    requires LF !in line
    ensures var text := ExpandTabs(TrimRight(line));
            && LF !in text && TAB !in text
            && (text != [] ==> !IsBlank(text[|text| - 1]))
  {
    hide ExpandTabs, TrimRight;
    TrimRightBytes(line);
    ExpandTabsBytes(TrimRight(line));
  }

  lemma {:induction false} FormatLinesIsNormal(s: Text)
    ensures NormalForm(FormatLines(s))
    decreases |s|
  {
    hide ExpandTabs, TrimRight, NormalForm;
    var i := FirstLine(s);
    var line := s[..i];
    assert LF !in DropCr(line);
    if i < |s| {
      FormatLinesIsNormal(s[i + 1..]);
      FormattedLine(DropCr(line));
      NormalAfterLine(ExpandTabs(TrimRight(DropCr(line))), FormatLines(s[i + 1..]));
    } else {
      assert line == s;
      FormatLastIsNormal(s);
    }
  }

  lemma FormatLastIsNormal(line: Text)
    requires LF !in line
    ensures NormalForm(FormatLast(line))
  {
    hide ExpandTabs, TrimRight;
    if line != [] && line[|line| - 1] == CR {
      ExpandTabsBytes(line);
    } else if line != [] {
      FormattedLine(line);
      NormalAfterLine(ExpandTabs(TrimRight(line)), []);
      var text := ExpandTabs(TrimRight(line));
      assert text + CRLF + [] == text + CRLF;
    }
  }

  lemma NormalFirstLine(t: Text, i: nat)
    requires NormalForm(t) && i < |t| && t[i] == LF && LF !in t[..i]
    ensures FormatLine(t[..i]) == t[..i + 1]
  {
    hide ExpandTabs, TrimRight;
    var text := t[..i - 1];
    assert DropCr(t[..i]) == text;
    TrimRightBytes(text);
    ExpandTabsBytes(text);
    assert text != [] ==> text[|text| - 1] == t[i - 2];
    assert text + CRLF == t[..i + 1];
  }

  lemma NormalRest(t: Text, i: nat)
    requires NormalForm(t) && i < |t| && t[i] == LF
    ensures NormalForm(t[i + 1..])
  {
    var rest := t[i + 1..];
    assert forall k :: 0 <= k < |rest| ==> rest[k] == t[k + i + 1];
  }

  lemma NormalLast(t: Text)
    requires NormalForm(t) && LF !in t
    ensures FormatLast(t) == t
  {
    hide ExpandTabs;
    ExpandTabsBytes(t);
  }

  lemma {:induction false} NormalIsKept(t: Text)
    requires NormalForm(t)
    ensures FormatLines(t) == t
    decreases |t|
  {
    hide FormatLine, FormatLast, NormalForm, FirstLine;
    var i := FirstLine(t);
    if i < |t| {
      var rest := t[i + 1..];
      NormalFirstLine(t, i);
      NormalRest(t, i);
      NormalIsKept(rest);
      assert FormatLines(t) == FormatLine(t[..i]) + rest;
      assert t[..i + 1] + rest == t;
    } else {
      assert t[..i] == t;
      NormalLast(t);
    }
  }

  /** FormatFile leaves a file unchanged exactly when the file is in normal form. */
  lemma UnchangedIffNormal(s: Text)
    ensures Format(s) == s <==> NormalForm(s)
  {
    FormatIsLineByLine(s);
    FormatLinesIsNormal(s);
    if NormalForm(s) {
      NormalIsKept(s);
    }
  }

  /** Every file is brought into normal form, and formatting twice is formatting once. */
  lemma FormatReachesNormalForm(s: Text)
    ensures NormalForm(Format(s))
    ensures Format(Format(s)) == Format(s)
  {
    FormatIsLineByLine(s);
    FormatLinesIsNormal(s);
    UnchangedIffNormal(Format(s));
  }

  // ----- No text is lost

  /** The bytes that are not blanks or line ends, in order. */
  function Ink(s: Text): Text {
    if s == [] then []
    else (if IsBlank(s[0]) || IsEol(s[0]) then [] else [s[0]]) + Ink(s[1..])
  }

  lemma {:induction false} InkConcat(a: Text, b: Text)
    ensures Ink(a + b) == Ink(a) + Ink(b)
    decreases |a|
  {
    if a == [] {
      assert a + b == b;
    } else {
      assert (a + b)[1..] == a[1..] + b;
      InkConcat(a[1..], b);
    }
  }

  lemma {:induction false} InkOfExpandTabs(s: Text)
    ensures Ink(ExpandTabs(s)) == Ink(s)
    decreases |s|
  {
    if s != [] {
      InkOfExpandTabs(s[1..]);
      var head := if s[0] == TAB then [SPACE, SPACE] else [s[0]];
      InkConcat(head, ExpandTabs(s[1..]));
      assert [SPACE, SPACE][1..] == [SPACE];
      assert Ink([SPACE]) == [];
    }
  }

  lemma {:induction false} InkOfTrimRight(s: Text)
    ensures Ink(TrimRight(s)) == Ink(s)
    decreases |s|
  {
    if s != [] && IsBlank(s[|s| - 1]) {
      InkOfTrimRight(s[..|s| - 1]);
      assert s == s[..|s| - 1] + [s[|s| - 1]];
      InkConcat(s[..|s| - 1], [s[|s| - 1]]);
    }
  }

  lemma InkOfFormatLine(line: Text)
    ensures Ink(FormatLine(line)) == Ink(line)
  {
    hide ExpandTabs, TrimRight;
    InkOfExpandTabs(TrimRight(DropCr(line)));
    InkOfTrimRight(DropCr(line));
    InkConcat(ExpandTabs(TrimRight(DropCr(line))), CRLF);
    InkConcat([CR], [LF]);
    assert CRLF == [CR] + [LF];
    if DropCr(line) != line {
      assert line == DropCr(line) + [CR];
      InkConcat(DropCr(line), [CR]);
    }
  }

  lemma {:induction false} InkOfFormatLines(s: Text)
    ensures Ink(FormatLines(s)) == Ink(s)
    decreases |s|
  {
    hide FormatLine, FormatLast, Ink;
    var i := FirstLine(s);
    if i < |s| {
      var line, rest := s[..i], s[i + 1..];
      InkOfFormatLine(line);
      InkOfFormatLines(rest);
      InkConcat(FormatLine(line), FormatLines(rest));
      assert s == line + ([LF] + rest);
      InkConcat(line, [LF] + rest);
      InkConcat([LF], rest);
      InkOfLf();
    } else {
      InkOfFormatLast(s);
    }
  }

  lemma InkOfLf()
    ensures Ink([LF]) == []
  {
  }

  lemma InkOfFormatLast(line: Text)
    ensures Ink(FormatLast(line)) == Ink(line)
  {
    InkOfFormatLine(line);
    InkOfExpandTabs(line);
  }

  /** Everything but blanks and line ends is preserved, in order. */
  lemma FormatKeepsText(s: Text)
    ensures Ink(Format(s)) == Ink(s)
  {
    FormatIsLineByLine(s);
    InkOfFormatLines(s);
  }

  // ----- Tabs, and one line at a time

  function CountTabs(s: Text): nat {
    if s == [] then 0 else (if s[0] == 9 then 1 else 0) + CountTabs(s[1..])
  }

  /** A tab becomes two spaces: the text grows by one byte for each. */
  lemma {:induction false} TabsBecomeTwoSpaces(s: Text, t: Text)
    ensures |ExpandTabs(s)| == |s| + CountTabs(s)
    ensures ExpandTabs(s + [9] + t) == ExpandTabs(s) + [32, 32] + ExpandTabs(t)
    decreases |s|
  {
    hide ExpandTabs;
    ExpandTabsConcat(s + [9], t);
    ExpandTabsConcat(s, [9]);
    OneTab();
    if s != [] {
      TabsBecomeTwoSpaces(s[1..], t);
      assert s == [s[0]] + s[1..];
      ExpandTabsConcat([s[0]], s[1..]);
      OneByte(s[0]);
    } else {
      ExpandTabsBytes([]);
    }
  }

  lemma OneTab()
    ensures ExpandTabs([9]) == [32, 32]
  {
    assert [TAB][1..] == [];
  }

  lemma OneByte(b: Byte)
    ensures ExpandTabs([b]) == if b == 9 then [32, 32] else [b]
  {
    assert [b][1..] == [];
  }

  lemma {:induction false} TrimRightOf(text: Text, blanks: Text)
    requires forall b :: b in blanks ==> b == 32 || b == 9
    requires text == [] || text[|text| - 1] !in [32, 9]
    ensures TrimRight(text + blanks) == text
    decreases |blanks|
  {
    if blanks == [] {
      assert text + blanks == text;
    } else {
      var n := |blanks| - 1;
      assert blanks[n] in blanks && forall b :: b in blanks[..n] ==> b in blanks;
      assert (text + blanks)[..|text| + n] == text + blanks[..n];
      TrimRightOf(text, blanks[..n]);
    }
  }

  lemma {:induction false} FirstLineIs(line: Text, rest: Text)
    requires 10 !in line
    ensures FirstLine(line + [10] + rest) == |line|
    decreases |line|
  {
    if line != [] {
      assert line[0] in line;
      assert (line + [10] + rest)[1..] == line[1..] + [10] + rest;
      FirstLineIs(line[1..], rest);
    }
  }

  /** The first line of a file and the rest are formatted by themselves. */
  lemma FormatsLineByItself(line: Text, rest: Text)
    requires 10 !in line
    ensures Format(line + [10] + rest) == FormatLine(line) + Format(rest)
  {
    hide Format, FormatLine, FormatLast, FirstLine;
    var s := line + [10] + rest;
    FormatIsLineByLine(s);
    FormatIsLineByLine(rest);
    FirstLineIs(line, rest);
    assert s[..|line|] == line && s[|line| + 1..] == rest;
  }

  /**
   A line that ends in blanks, with LF or CRLF behind them, comes out as its text with two spaces
   for each tab and with CRLF.
   */
  lemma FormatsOneLine(text: Text, blanks: Text, cr: Text)
    requires 13 !in text && cr in [[], [13]]
    requires forall b :: b in blanks ==> b == 32 || b == 9
    requires text == [] || text[|text| - 1] !in [32, 9]
    ensures FormatLine(text + blanks + cr) == ExpandTabs(text) + [13, 10]
  {
    hide ExpandTabs, TrimRight, DropCr;
    TrimRightOf(text, blanks);
    NoCrAtEnd(text, blanks);
    DropCrOf(text + blanks, cr);
  }

  lemma NoCrAtEnd(text: Text, blanks: Text)
    requires 13 !in text && forall b :: b in blanks ==> b == 32 || b == 9
    ensures 13 !in text + blanks
  {
  }

  lemma DropCrOf(line: Text, cr: Text)
    requires 13 !in line && cr in [[], [13]]
    ensures DropCr(line + cr) == line
  {
    if cr == [] {
      assert line + cr == line;
    } else {
      assert (line + cr)[..|line|] == line;
    }
  }
}
