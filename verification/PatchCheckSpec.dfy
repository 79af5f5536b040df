/**
 What a git diff says, read off positions rather than by running a state machine: which
 file section a line belongs to, which lines are added lines, which policy applies to them,
 and where a diff stops being one.
 */
module PatchCheckSpec {
  import opened PyStrings

  /** The parts of the checker's world that are not modelled: character classes, one regex, paths. */
  datatype Env = Env(
    isSpace: char -> bool,          // str.isspace
    oldDebug: string -> bool,       // old_debug_re.search
    isThisScript: string -> bool    // realpath(filename) == realpath(__file__)
  )

  // ----- Paths

  /** os.path.basename */
  function BaseName(s: string): string {
    if '/' in s then BaseName(s[1..]) else s
  }

  /** os.path.splitext(s)[1] == ext, for an ext with one leading dot: leading dots of the name do not count. */
  predicate HasExtension(s: string, ext: string) {
    var name := BaseName(s);
    EndsWith(name, ext) && exists i :: 0 <= i < |name| - |ext| && name[i] != '.'
  }

  // ----- Single lines

  predicate IsDiff(l: string) { "diff --git" <= l }

  predicate IsHunk(l: string) { "@@ " <= l }

  predicate IsBinaryMarker(l: string) { "GIT binary patch" <= l || "Binary files" <= l }

  predicate IsOpener(l: string) { IsHunk(l) || IsBinaryMarker(l) }

  predicate IsSubmodule(l: string) { "new file mode 160000" <= l }

  const PRE_PATCH_PREFIXES: seq<string> :=
    ["--- ", "+++ ", "index ", "new file ", "deleted file ", "old mode ", "new mode ",
     "similarity index ", "copy from ", "copy to ", "rename "]

  /** One of the extended header lines git writes between "diff --git" and the first hunk. */
  predicate IsExtendedHeader(l: string) {
    exists k :: 0 <= k < |PRE_PATCH_PREFIXES| && PRE_PATCH_PREFIXES[k] <= l
  }

  function SkipZeroDigits(s: string): string {
    if "0" <= s then SkipZeroDigits(s[1..]) else s
  }

  /** newfile_prefix_re: "index ", one or more zeros, "..". */
  predicate IsNewFileIndex(l: string) {
    "index 0" <= l && ".." <= SkipZeroDigits(l[6..])
  }

  /**
   A line at which the checker takes the patch to have ended, as it does at the signature of a
   patch mail. It begins in none of the ways the checker knows for a hunk line. A bare "\n" is
   one, although git writes an empty context line like that under diff.suppressBlankEmpty, and
   so is what splitlines leaves of a hunk line behind a form feed.
   */
  predicate IsTrailer(l: string) {
    && |l| >= 1
    && l[0] !in {' ', '-', '+'}
    && !("\r\n" <= l)
    && !("\\ No newline " <= l)
  }

  /** The five ways in which the checker expects a line of a text hunk to begin. */
  predicate IsHunkLine(l: string) {
    "-" <= l || "+" <= l || " " <= l || "\r\n" <= l || "\\ No newline " <= l
  }

  lemma HunkLineShapes(l: string)
    ensures l == "" ==> !IsHunkLine(l) && !IsTrailer(l)
    ensures l != "" && !IsTrailer(l) ==> IsHunkLine(l)
    ensures !("-" <= l && "+" <= l)
  {
    if l != "" {
      assert l[..1] == [l[0]];
    }
  }

  // ----- Files and their policy

  /** The name the checker takes from a "diff --git a/... b/..." line: the a/ side, up to its first blank. */
  function FileName(l: string): string {
    if |l| <= 13 then "" else Before(l[13..], ' ')
  }

  predicate IsRtf(f: string) { EndsWith(f, ".rtf") }

  predicate IsGitInternal(f: string) { f == ".gitmodules" || f == "BaseTools/Conf/diff.order" }

  predicate IsShellScript(f: string) {
    || EndsWith(f, ".sh")
    || "BaseTools/BinWrappers/PosixLike/" <= f
    || f == "BaseTools/BuildEnv"
  }

  predicate IsMakefile(f: string) {
    || BaseName(f) == "GNUmakefile"
    || Lower(BaseName(f)) == "makefile"
    || HasExtension(f, ".makefile")
    || "BaseTools/Source/C/VfrCompile/Pccts/" <= f
  }

  /** CRLF line endings are enforced except in RTF, shell-script and git-internal files. */
  predicate EnforcesCrlf(f: string) { !IsRtf(f) && !IsShellScript(f) && !IsGitInternal(f) }

  /** Tabs are rejected except in RTF, git-internal files and makefiles. */
  predicate EnforcesNoTabs(f: string) { !IsRtf(f) && !IsGitInternal(f) && !IsMakefile(f) }

  // ----- Sections of a diff

  /** The last "diff --git" line before line i, or -1. */
  function Header(lines: seq<string>, i: nat): (h: int)
    requires i <= |lines|
    ensures -1 <= h < i
    ensures 0 <= h ==> IsDiff(lines[h])
    ensures forall k :: h < k < i ==> !IsDiff(lines[k])
  {
    if i == 0 then -1 else if IsDiff(lines[i - 1]) then i - 1 else Header(lines, i - 1)
  }

  /** The first hunk or binary marker in lines[from..i], or i. */
  function FirstOpener(lines: seq<string>, from: nat, i: nat): (o: nat)
    requires from <= i <= |lines|
    ensures from <= o <= i
    ensures o < i ==> IsOpener(lines[o])
    ensures forall k :: from <= k < o ==> !IsOpener(lines[k])
    decreases i - from
  {
    if from == i || IsOpener(lines[from]) then from else FirstOpener(lines, from + 1, i)
  }

  datatype Section =
    | Outside                              // before the first "diff --git"
    | Preamble(header: nat)                // after a "diff --git", before its first hunk
    | Body(header: nat, opener: nat)       // after the first hunk or binary marker of a file

  /** The section that line i belongs to, judged from the lines before it. */
  function SectionOf(lines: seq<string>, i: nat): (s: Section)
    requires i <= |lines|
    ensures s.Preamble? || s.Body? ==> s.header < i
    ensures s.Body? ==> s.header < s.opener < i
  {
    var h := Header(lines, i);
    if h < 0 then Outside
    else
      var o := FirstOpener(lines, h + 1, i);
      if o == i then Preamble(h) else Body(h, o)
  }

  lemma SectionStep(lines: seq<string>, i: nat)
    requires i < |lines|
    ensures SectionOf(lines, i + 1) ==
            if IsDiff(lines[i]) then Preamble(i)
            else match SectionOf(lines, i)
              case Outside => Outside
              case Preamble(h) => if IsOpener(lines[i]) then Body(h, i) else Preamble(h)
              case Body(h, o) => Body(h, o)
  {
    hide IsDiff, IsOpener;
    if !IsDiff(lines[i]) && Header(lines, i) >= 0 {
      var h := Header(lines, i);
      var o, o' := FirstOpener(lines, h + 1, i), FirstOpener(lines, h + 1, i + 1);
      assert o < i ==> o' == o;
    }
  }

  /** Line i lies in a binary patch: the file opened with a binary marker and no hunk followed. */
  ghost predicate InBinary(lines: seq<string>, opener: nat, i: nat)
    requires opener < i <= |lines|
  {
    forall k :: opener <= k < i ==> !IsHunk(lines[k])
  }

  /** The extended headers end with the index line of a file that did not exist before. */
  ghost predicate IsNewFile(lines: seq<string>, header: nat, i: nat)
    requires header < i <= |lines|
  {
    exists k :: header < k < i && IsNewFileIndex(lines[k]) && !IsSubmodule(lines[k]) &&
                forall m :: k < m < i ==> IsSubmodule(lines[m])
  }

  /** A submodule is declared between the header and position i. */
  ghost predicate DeclaresSubmodule(lines: seq<string>, header: nat, i: nat)
    requires header < i <= |lines|
  {
    exists k :: header < k < i && IsSubmodule(lines[k])
  }

  lemma PreambleStep(lines: seq<string>, header: nat, i: nat)
    requires header < i < |lines|
    ensures IsNewFile(lines, header, i + 1)
            <==> if IsSubmodule(lines[i]) then IsNewFile(lines, header, i) else IsNewFileIndex(lines[i])
    ensures DeclaresSubmodule(lines, header, i + 1) <==> DeclaresSubmodule(lines, header, i) || IsSubmodule(lines[i])
  {
    hide IsNewFileIndex, IsSubmodule;
    if IsSubmodule(lines[i]) && IsNewFile(lines, header, i) {
      var k :| header < k < i && IsNewFileIndex(lines[k]) && !IsSubmodule(lines[k]) &&
               forall m :: k < m < i ==> IsSubmodule(lines[m]);
      assert forall m :: k < m < i + 1 ==> IsSubmodule(lines[m]);
    }
  }

  /** CRLF is enforced in the file whose preamble is lines[header..preambleEnd]. */
  ghost predicate CrlfAt(lines: seq<string>, header: nat, preambleEnd: nat)
    requires header < preambleEnd <= |lines|
  {
    EnforcesCrlf(FileName(lines[header])) && !DeclaresSubmodule(lines, header, preambleEnd)
  }

  // ----- What each line is

  datatype Role = Plain | Binary | Added | Trailer | Malformed

  ghost function RoleOf(env: Env, lines: seq<string>, i: nat): Role
    requires i < |lines|
  {
    var l := lines[i];
    if IsDiff(l) then Plain
    else
      match SectionOf(lines, i)
      case Outside => if Blank(env.isSpace, l) then Plain else Malformed
      case Preamble(h) =>
        if IsHunk(l) then Plain
        else if IsBinaryMarker(l) then Binary
        else if IsSubmodule(l) || IsExtendedHeader(l) then Plain
        else Malformed
      case Body(h, o) =>
        if IsHunk(l) || InBinary(lines, o, i) then Plain
        else if IsTrailer(l) then Trailer
        else if IsRtf(FileName(lines[h])) then Plain
        else if "+" <= l then Added
        else if l == "" then Malformed
        else Plain
  }

  /** The added lines are the '+' lines of hunks that are neither binary nor in an RTF file. */
  lemma AddedIff(env: Env, lines: seq<string>, i: nat)
    requires i < |lines|
    ensures RoleOf(env, lines, i) == Added <==>
            && "+" <= lines[i]
            && SectionOf(lines, i).Body?
            && !InBinary(lines, SectionOf(lines, i).opener, i)
            && !IsRtf(FileName(lines[SectionOf(lines, i).header]))
  {
    hide SectionOf, IsRtf, FileName, Blank;
    if "+" <= lines[i] {
      assert lines[i][0] == '+';
      assert !IsDiff(lines[i]) && !IsHunk(lines[i]);
    }
  }

  /** Inside a file's hunks only an empty line is malformed, and splitlines never yields one. */
  lemma HunkLinesAreWellFormed(env: Env, lines: seq<string>, i: nat)
    requires i < |lines|
    requires SectionOf(lines, i).Body?
    ensures RoleOf(env, lines, i) == Malformed <==>
            && lines[i] == ""
            && !InBinary(lines, SectionOf(lines, i).opener, i)
            && !IsRtf(FileName(lines[SectionOf(lines, i).header]))
  {
    hide SectionOf, IsRtf, FileName, Blank;
  }

  ghost predicate Stops(env: Env, lines: seq<string>, i: nat)
    requires i < |lines|
  {
    RoleOf(env, lines, i) in {Trailer, Malformed}
  }

  /** The first line at or after i at which checking stops, or the number of lines. */
  ghost function StopFrom(env: Env, lines: seq<string>, i: nat): (s: nat)
    requires i <= |lines|
    ensures i <= s <= |lines|
    ensures s < |lines| ==> Stops(env, lines, s)
    ensures forall k :: i <= k < s ==> !Stops(env, lines, k)
    decreases |lines| - i
  {
    hide RoleOf;
    if i == |lines| || Stops(env, lines, i) then i else StopFrom(env, lines, i + 1)
  }

  ghost function Stop(env: Env, lines: seq<string>): nat {
    StopFrom(env, lines, 0)
  }

  /** The lines end properly, or with text that no further diff follows. */
  ghost predicate WellFormed(env: Env, lines: seq<string>) {
    var s := Stop(env, lines);
    s < |lines| ==>
      && RoleOf(env, lines, s) == Trailer
      && forall k :: s < k < |lines| ==> !IsDiff(lines[k])
  }

  /** The added lines among the first i, in order. */
  ghost function AddedLines(env: Env, lines: seq<string>, i: nat): seq<nat>
    requires i <= |lines|
  {
    if i == 0 then []
    else AddedLines(env, lines, i - 1) + if RoleOf(env, lines, i - 1) == Added then [i - 1] else []
  }

  lemma {:induction false} AddedLinesInOrder(env: Env, lines: seq<string>, n: nat)
    requires n <= |lines|
    ensures var added := AddedLines(env, lines, n);
            && (forall i :: i in added <==> 0 <= i < n && RoleOf(env, lines, i) == Added)
            && (forall j, k :: 0 <= j < k < |added| ==> added[j] < added[k])
  {
    hide RoleOf;
    if n > 0 {
      AddedLinesInOrder(env, lines, n - 1);
      var before := AddedLines(env, lines, n - 1);
      assert forall j :: 0 <= j < |before| ==> before[j] in before;
    }
  }

  /** The files newly added as binaries among the first i lines, in order. */
  ghost function NewBinaries(env: Env, lines: seq<string>, i: nat): seq<string>
    requires i <= |lines|
  {
    if i == 0 then []
    else
      NewBinaries(env, lines, i - 1)
      + match SectionOf(lines, i - 1)
        case Preamble(h) =>
          if RoleOf(env, lines, i - 1) == Binary && IsNewFile(lines, h, i - 1) then [FileName(lines[h])] else []
        case _ => []
  }

  // ----- What an added line must look like

  const CRLF := "\r\n"
  const LINE_ENDINGS: seq<string> := ["\r\n", "\n\r", "\n", "\r"]

  datatype Ended = Ended(body: string, eol: string)

  /** One test of the ending loop. */
  function StripOne(e: Ended, ending: string): Ended {
    if EndsWith(e.body, ending) then Ended(e.body[..|e.body| - |ending|], ending) else e
  }

  /** The ending loop: it does not break, so a line may lose up to four endings. */
  function StripEndings(line: string): Ended {
    StripOne(StripOne(StripOne(StripOne(Ended(line, ""), "\r\n"), "\n\r"), "\n"), "\r")
  }

  /** The passes of the loop that remain after k of them. */
  function StripFrom(e: Ended, k: nat): Ended
    requires k <= |LINE_ENDINGS|
    decreases |LINE_ENDINGS| - k
  {
    if k == |LINE_ENDINGS| then e else StripFrom(StripOne(e, LINE_ENDINGS[k]), k + 1)
  }

  lemma StripFromStep(e: Ended, k: nat)
    requires k < |LINE_ENDINGS|
    ensures StripFrom(e, k) == StripFrom(StripOne(e, LINE_ENDINGS[k]), k + 1)
  {
  }

  lemma StripFromEnd(e: Ended)
    ensures StripFrom(e, |LINE_ENDINGS|) == e
  {
  }

  lemma StripLoop(line: string)
    ensures StripFrom(Ended(line, ""), 0) == StripEndings(line)
  {
    hide StripOne;
    var a := StripOne(Ended(line, ""), "\r\n");
    var b := StripOne(a, "\n\r");
    var c := StripOne(b, "\n");
    assert StripFrom(c, 3) == StripOne(c, "\r");
    assert StripFrom(b, 2) == StripFrom(c, 3);
    assert StripFrom(a, 1) == StripFrom(b, 2);
  }

  predicate EndsInCrOrLf(s: string) {
    s != "" && s[|s| - 1] in {'\r', '\n'}
  }

  /** Exactly one CRLF ends the line. */
  predicate EndsWithOneCrlf(line: string) {
    EndsWith(line, CRLF) && !EndsInCrOrLf(line[..|line| - 2])
  }

  /** A line can only end with an ending whose characters are its own last ones. */
  lemma EndingChars(s: string, ending: string)
    requires EndsWith(s, ending) && ending != ""
    ensures s != "" && s[|s| - 1] == ending[|ending| - 1]
    ensures |ending| == 2 ==> |s| >= 2 && s[|s| - 2] == ending[0]
  {
    var tail := s[|s| - |ending|..];
    assert tail[|ending| - 1] == s[|s| - 1];
    if |ending| == 2 {
      assert tail[0] == s[|s| - 2];
    }
  }

  lemma KeepsPlainBody(body: string, eol: string, ending: string)
    requires !EndsInCrOrLf(body)
    requires ending in LINE_ENDINGS
    ensures StripOne(Ended(body, eol), ending) == Ended(body, eol)
  {
    if EndsWith(body, ending) {
      EndingChars(body, ending);
    }
  }

  lemma StripOneEffect(e: Ended, ending: string)
    ensures StripOne(e, ending) == e || StripOne(e, ending).eol == ending
    ensures |ending| == 1 && e.body != "" && e.body[|e.body| - 1] == ending[0] ==> StripOne(e, ending).eol == ending
  {
    if |ending| == 1 && e.body != "" && e.body[|e.body| - 1] == ending[0] {
      assert e.body[|e.body| - 1..] == ending;
    }
  }

  /** The tests after the first one. */
  function LaterTests(e: Ended): Ended {
    StripOne(StripOne(StripOne(e, "\n\r"), "\n"), "\r")
  }

  /** The later tests replace a CRLF that they find a further ending before, and never report one themselves. */
  lemma LaterTestsEol(e: Ended)
    ensures !EndsInCrOrLf(e.body) ==> LaterTests(e) == e
    ensures EndsInCrOrLf(e.body) || e.eol != CRLF ==> LaterTests(e).eol != CRLF
  {
    hide StripOne;
    assert |"\n"| != |CRLF| && |"\r"| != |CRLF| && "\n\r"[0] != CRLF[0];
    var b := StripOne(e, "\n\r");
    var c := StripOne(b, "\n");
    StripOneEffect(e, "\n\r");
    StripOneEffect(b, "\n");
    StripOneEffect(c, "\r");
    if !EndsInCrOrLf(e.body) {
      KeepsPlainBody(e.body, e.eol, "\n\r");
      KeepsPlainBody(e.body, e.eol, "\n");
      KeepsPlainBody(e.body, e.eol, "\r");
    }
  }

  /** The first test, for CRLF. */
  lemma FirstTest(line: string)
    ensures EndsWith(line, CRLF) ==> |line| >= 2 && StripOne(Ended(line, ""), CRLF) == Ended(line[..|line| - 2], CRLF)
    ensures !EndsWith(line, CRLF) ==> StripOne(Ended(line, ""), CRLF) == Ended(line, "")
  {
  }

  /** The loop reports CRLF exactly for a body followed by CRLF, the body ending in neither CR nor LF. */
  lemma ReportsCrlfIff(line: string)
    ensures StripEndings(line).eol == CRLF <==> EndsWithOneCrlf(line)
  {
    hide LaterTests, EndsInCrOrLf, StripEndings, StripOne, EndsWith;
    FirstThenLater(line);
    FirstTest(line);
    LaterTestsEol(StripOne(Ended(line, ""), CRLF));
    assert |""| != |CRLF|;
  }

  lemma FirstThenLater(line: string)
    ensures StripEndings(line) == LaterTests(StripOne(Ended(line, ""), CRLF))
  {
    hide StripOne;
  }

  lemma StripsOwnEnding(body: string, ending: string)
    ensures StripOne(Ended(body + ending, ""), ending) == Ended(body, ending)
  {
    assert (body + ending)[|body|..] == ending && (body + ending)[..|body|] == body;
  }

  lemma KeepsOtherEnding(body: string, eol: string, ending: string)
    requires !EndsInCrOrLf(body)
    requires (eol, ending) in {("\n\r", "\r\n"), ("\n", "\r\n"), ("\n", "\n\r"), ("\r", "\r\n"), ("\r", "\n\r"), ("\r", "\n")}
    ensures StripOne(Ended(body + eol, ""), ending) == Ended(body + eol, "")
  {
    if EndsWith(body + eol, ending) {
      EndingChars(body + eol, ending);
    }
  }

  /** A line with one ordinary ending, or none, is split into its text and that ending. */
  lemma SplitsOrdinaryLine(body: string, eol: string)
    requires !EndsInCrOrLf(body)
    requires eol in ["", "\r\n", "\n\r", "\n", "\r"]
    ensures StripEndings(body + eol) == Ended(body, eol)
  {
    hide StripOne, EndsInCrOrLf;
    KeepsPlainBody(body, eol, "\r\n");
    KeepsPlainBody(body, eol, "\n\r");
    KeepsPlainBody(body, eol, "\n");
    KeepsPlainBody(body, eol, "\r");
    if eol == "" {
      assert body + eol == body;
    } else {
      StripsOwnEnding(body, eol);
      if eol == "\n\r" {
        KeepsOtherEnding(body, eol, "\r\n");
      } else if eol == "\n" {
        KeepsOtherEnding(body, eol, "\r\n");
        KeepsOtherEnding(body, eol, "\n\r");
      } else if eol == "\r" {
        KeepsOtherEnding(body, eol, "\r\n");
        KeepsOtherEnding(body, eol, "\n\r");
        KeepsOtherEnding(body, eol, "\n");
      }
    }
  }

  /** What check_added_line demands of the text of an added line. */
  ghost predicate LineOk(env: Env, file: string, crlf: bool, line: string) {
    var body := StripEndings(line).body;
    && (crlf ==> EndsWithOneCrlf(line) || Contains(body, "Subproject commit"))
    && (EnforcesNoTabs(file) ==> '\t' !in body)
    && (body != "" ==> !env.isSpace(body[|body| - 1]))
    && !env.oldDebug(body)
    && (Contains(body, "__FUNCTION__") ==> env.isThisScript(file))
  }

  /** Added line i meets the policy of its file. */
  ghost predicate AddedLineOk(env: Env, lines: seq<string>, i: nat)
    requires i < |lines| && RoleOf(env, lines, i) == Added
  {
    var s := SectionOf(lines, i);
    LineOk(env, FileName(lines[s.header]), CrlfAt(lines, s.header, s.opener), lines[i][1..])
  }

  ghost predicate AllOk(env: Env, lines: seq<string>, i: nat)
    requires i <= |lines|
  {
    forall k :: 0 <= k < i && RoleOf(env, lines, k) == Added ==> AddedLineOk(env, lines, k)
  }

  /** How one more line changes the results. */
  lemma ResultsStep(env: Env, lines: seq<string>, i: nat)
    requires i < |lines|
    ensures AddedLines(env, lines, i + 1)
            == AddedLines(env, lines, i) + if RoleOf(env, lines, i) == Added then [i] else []
    ensures RoleOf(env, lines, i) != Binary ==> NewBinaries(env, lines, i + 1) == NewBinaries(env, lines, i)
    ensures RoleOf(env, lines, i) == Binary && SectionOf(lines, i).Preamble? ==>
              var h := SectionOf(lines, i).header;
              NewBinaries(env, lines, i + 1)
              == NewBinaries(env, lines, i) + if IsNewFile(lines, h, i) then [FileName(lines[h])] else []
    ensures AllOk(env, lines, i + 1)
            <==> AllOk(env, lines, i) && (RoleOf(env, lines, i) == Added ==> AddedLineOk(env, lines, i))
  {
    hide RoleOf, AddedLineOk, SectionOf;
    if AllOk(env, lines, i + 1) && RoleOf(env, lines, i) == Added {
      assert AddedLineOk(env, lines, i);
    }
  }

  /** The verdict on a diff. */
  ghost predicate DiffOk(env: Env, lines: seq<string>) {
    WellFormed(env, lines) && AllOk(env, lines, Stop(env, lines))
  }

  // ----- What the early stop leaves unchecked

  lemma {:induction false} AddedLinesExtend(env: Env, lines: seq<string>, n: nat, m: nat)
    requires n <= m <= |lines|
    ensures AddedLines(env, lines, n) <= AddedLines(env, lines, m)
    ensures AddedLines(env, lines, n) == AddedLines(env, lines, m)
            <==> forall k :: n <= k < m ==> RoleOf(env, lines, k) != Added
    decreases m
  {
    hide RoleOf;
    if n < m {
      AddedLinesExtend(env, lines, n, m - 1);
    }
  }

  /** Behind the line that ended the patch, every '+' line is still an added line of that file. */
  lemma {:induction false} SectionBehindTrailer(env: Env, lines: seq<string>, s: nat, k: nat)
    requires s < k < |lines|
    requires RoleOf(env, lines, s) == Trailer
    requires forall m :: s < m < |lines| ==> !IsDiff(lines[m])
    ensures SectionOf(lines, s).Body? && SectionOf(lines, k) == SectionOf(lines, s)
    ensures !InBinary(lines, SectionOf(lines, s).opener, k)
    decreases k
  {
    hide SectionOf, IsDiff, IsHunk, IsBinaryMarker, IsSubmodule, IsExtendedHeader, IsTrailer, IsRtf, FileName, Blank;
    SectionStep(lines, k - 1);
    if s < k - 1 {
      SectionBehindTrailer(env, lines, s, k - 1);
    }
  }

  /**
   The lines checked are all the added lines of the diff if and only if none lies behind the
   line at which checking stops. In a well-formed diff that is a matter of the first character
   of the lines that follow.
   */
  lemma ChecksAllAddedIff(env: Env, lines: seq<string>)
    ensures AddedLines(env, lines, Stop(env, lines)) == AddedLines(env, lines, |lines|)
            <==> forall k :: Stop(env, lines) < k < |lines| ==> RoleOf(env, lines, k) != Added
    ensures WellFormed(env, lines) && Stop(env, lines) < |lines| ==>
              var s := Stop(env, lines);
              && SectionOf(lines, s).Body?
              && (AddedLines(env, lines, s) == AddedLines(env, lines, |lines|)
                  <==> NoneAddedBehind(lines, s))
  {
    hide SectionOf, RoleOf, AddedLines, InBinary, IsRtf, FileName;
    var s := Stop(env, lines);
    AddedLinesExtend(env, lines, s, |lines|);
    if WellFormed(env, lines) && s < |lines| {
      TrailerIsInBody(env, lines, s);
      forall k | s < k < |lines|
        ensures RoleOf(env, lines, k) == Added
                <==> "+" <= lines[k] && !IsRtf(FileName(lines[SectionOf(lines, s).header]))
      {
        SectionBehindTrailer(env, lines, s, k);
        AddedIff(env, lines, k);
      }
    }
  }

  lemma TrailerIsInBody(env: Env, lines: seq<string>, s: nat)
    requires s < |lines| && RoleOf(env, lines, s) == Trailer
    ensures SectionOf(lines, s).Body?
  {
    hide SectionOf, IsDiff, IsHunk, IsBinaryMarker, IsSubmodule, IsExtendedHeader, IsTrailer, IsRtf, FileName, Blank;
  }

  /** No line behind line s is an added line: none begins with '+', or the file of line s is RTF. */
  ghost predicate NoneAddedBehind(lines: seq<string>, s: nat)
    requires s < |lines| && SectionOf(lines, s).Body?
  {
    || IsRtf(FileName(lines[SectionOf(lines, s).header]))
    || forall k :: s < k < |lines| ==> !("+" <= lines[k])
  }

  /** Every line behind line s that begins with '+' meets the policy of the file of line s, unless that is RTF. */
  ghost predicate PolicyHoldsBehind(env: Env, lines: seq<string>, s: nat)
    requires s < |lines| && SectionOf(lines, s).Body?
  {
    var h, o := SectionOf(lines, s).header, SectionOf(lines, s).opener;
    || IsRtf(FileName(lines[h]))
    || forall k :: s < k < |lines| && "+" <= lines[k] ==>
         LineOk(env, FileName(lines[h]), CrlfAt(lines, h, o), lines[k][1..])
  }

  lemma PolicyBehind(env: Env, lines: seq<string>, s: nat)
    requires s < |lines| && RoleOf(env, lines, s) == Trailer
    requires forall k :: s < k < |lines| ==> !IsDiff(lines[k])
    ensures SectionOf(lines, s).Body?
    ensures AllOk(env, lines, |lines|) <==> AllOk(env, lines, s) && PolicyHoldsBehind(env, lines, s)
  {
    hide SectionOf, RoleOf, InBinary, IsRtf, FileName, LineOk, CrlfAt, IsDiff;
    TrailerIsInBody(env, lines, s);
    var h, o := SectionOf(lines, s).header, SectionOf(lines, s).opener;
    forall k | s < k < |lines|
      ensures RoleOf(env, lines, k) == Added <==> "+" <= lines[k] && !IsRtf(FileName(lines[h]))
      ensures SectionOf(lines, k) == SectionOf(lines, s)
    {
      SectionBehindTrailer(env, lines, s, k);
      AddedIff(env, lines, k);
    }
    if AllOk(env, lines, |lines|) {
      forall k | s < k < |lines| && "+" <= lines[k] && !IsRtf(FileName(lines[h]))
        ensures LineOk(env, FileName(lines[h]), CrlfAt(lines, h, o), lines[k][1..])
      {
        assert AddedLineOk(env, lines, k);
      }
    }
    if AllOk(env, lines, s) && PolicyHoldsBehind(env, lines, s) {
      forall k | 0 <= k < |lines| && RoleOf(env, lines, k) == Added ensures AddedLineOk(env, lines, k) {
      }
    }
  }

  /**
   A passing verdict speaks for the whole diff, every added line of it meeting its policy, if
   checking ran to the end. Where it stopped earlier, in a well-formed diff, verdict and diff
   agree if and only if a line before the stop fails already, or the file is RTF, or each line
   behind the stop that begins with '+' meets the policy of that file.
   */
  lemma VerdictCoversDiffIff(env: Env, lines: seq<string>)
    ensures Stop(env, lines) == |lines| ==> (DiffOk(env, lines) <==> AllOk(env, lines, |lines|))
    ensures WellFormed(env, lines) && Stop(env, lines) < |lines| ==>
              var s := Stop(env, lines);
              && SectionOf(lines, s).Body?
              && ((DiffOk(env, lines) <==> AllOk(env, lines, |lines|))
                  <==> !AllOk(env, lines, s) || PolicyHoldsBehind(env, lines, s))
  {
    hide SectionOf, RoleOf, AllOk, PolicyHoldsBehind;
    if WellFormed(env, lines) && Stop(env, lines) < |lines| {
      PolicyBehind(env, lines, Stop(env, lines));
    }
  }

  /** Both conditions together. */
  lemma WholeDiffIff(env: Env, lines: seq<string>)
    ensures Stop(env, lines) <= |lines|
    ensures Stop(env, lines) == |lines| ==> (DiffOk(env, lines) <==> AllOk(env, lines, |lines|))
    ensures WellFormed(env, lines) && Stop(env, lines) < |lines| ==>
              var s := Stop(env, lines);
              && SectionOf(lines, s).Body?
              && (AddedLines(env, lines, s) == AddedLines(env, lines, |lines|) <==> NoneAddedBehind(lines, s))
              && ((DiffOk(env, lines) <==> AllOk(env, lines, |lines|))
                  <==> !AllOk(env, lines, s) || PolicyHoldsBehind(env, lines, s))
  {
    hide RoleOf, AddedLines, AllOk, WellFormed, SectionOf, PolicyHoldsBehind, DiffOk, IsRtf, FileName;
    ChecksAllAddedIff(env, lines);
    VerdictCoversDiffIff(env, lines);
  }

  /** A hunk with an empty context line written as a bare "\n": what follows is never looked at. */
  const BLANK_CONTEXT: seq<string> :=
    ["diff --git a/f.c b/f.c\r\n", "@@ -1 +1 @@\n", "\n", "+bad\t\n"]

  lemma BlankContextSections()
    ensures SectionOf(BLANK_CONTEXT, 0) == Outside
    ensures SectionOf(BLANK_CONTEXT, 1) == Preamble(0)
    ensures SectionOf(BLANK_CONTEXT, 2) == Body(0, 1)
    ensures SectionOf(BLANK_CONTEXT, 3) == Body(0, 1)
  {
    hide SectionOf;
    SectionStart(BLANK_CONTEXT);
    SectionStep(BLANK_CONTEXT, 0);
    SectionStep(BLANK_CONTEXT, 1);
    SectionStep(BLANK_CONTEXT, 2);
    assert BLANK_CONTEXT[1][0] == '@' && BLANK_CONTEXT[2][0] == '\n';
  }

  lemma SectionStart(lines: seq<string>)
    ensures SectionOf(lines, 0) == Outside
  {
  }

  lemma BlankContextFile()
    ensures FileName(BLANK_CONTEXT[0]) == "f.c"
    ensures EnforcesNoTabs("f.c") && !IsRtf("f.c")
  {
    hide Before;
    assert BLANK_CONTEXT[0][13..] == "f.c" + [' '] + "b/f.c\r\n";
    BeforeFirst("f.c", ' ', "b/f.c\r\n");
    assert BaseName("f.c") == "f.c";
  }

  lemma BlankContextRoles(env: Env)
    ensures RoleOf(env, BLANK_CONTEXT, 0) == Plain
    ensures RoleOf(env, BLANK_CONTEXT, 1) == Plain
    ensures RoleOf(env, BLANK_CONTEXT, 2) == Trailer
    ensures RoleOf(env, BLANK_CONTEXT, 3) == Added
  {
    hide SectionOf, FileName, IsRtf, IsBinaryMarker, IsSubmodule, IsExtendedHeader, Blank;
    BlankContextSections();
    BlankContextFile();
    var ls := BLANK_CONTEXT;
    assert ls[1][0] == '@' && ls[2][0] == '\n' && ls[3][0] == '+';
    assert IsHunk(ls[1]);
    assert !InBinary(ls, 1, 2) && !InBinary(ls, 1, 3);
  }

  /** It passes with nothing checked, although its one added line breaks the policy of its file. */
  lemma PassesUncheckedLine(env: Env)
    ensures Stop(env, BLANK_CONTEXT) == 2
    ensures DiffOk(env, BLANK_CONTEXT)
    ensures AddedLines(env, BLANK_CONTEXT, 2) == []
    ensures AddedLines(env, BLANK_CONTEXT, 4) == [3]
    ensures RoleOf(env, BLANK_CONTEXT, 3) == Added && !AddedLineOk(env, BLANK_CONTEXT, 3)
    ensures !AllOk(env, BLANK_CONTEXT, 4)
  {
    hide RoleOf, SectionOf, AddedLineOk;
    var ls := BLANK_CONTEXT;
    BlankContextRoles(env);
    assert Stops(env, ls, 2);
    assert AddedLines(env, ls, 1) == [];
    assert AddedLines(env, ls, 3) == [];
    assert ls[3][0] == '+';
    assert !IsDiff(ls[3]);
    BlankContextLineIsBad(env);
  }

  lemma BlankContextLineIsBad(env: Env)
    ensures RoleOf(env, BLANK_CONTEXT, 3) == Added && !AddedLineOk(env, BLANK_CONTEXT, 3)
  {
    hide RoleOf, SectionOf, StripEndings, EnforcesNoTabs, FileName;
    BlankContextRoles(env);
    BlankContextSections();
    BlankContextFile();
    var line := BLANK_CONTEXT[3][1..];
    assert line == "bad\t" + "\n";
    SplitsOrdinaryLine("bad\t", "\n");
    assert StripEndings(line).body[3] == '\t';
  }
}
