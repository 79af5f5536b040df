/**
 Whose policy PatchCheck.py applies: git's header line names a file before and after the
 change, and the checker judges added lines by what it cuts out of the first name.
 */
module PatchCheckNames {
  import opened PatchCheckSpec
  import opened PyStrings

  /**
   The line git prints for a change from path a to path b. The two differ for a rename or a copy.
   (Names with unusual characters, which git puts in quotes, are not considered.)
   */
  function DiffHeader(a: string, b: string, eol: string): string {
    "diff --git a/" + (a + [' '] + ("b/" + b + eol))
  }

  lemma {:induction false} BeforeConcat(s: string, c: char, t: string)
    ensures Before(s + [c] + t, c) == Before(s, c)
    decreases |s|
  {
    if s != "" && s[0] != c {
      assert (s + [c] + t)[1..] == s[1..] + [c] + t;
      BeforeConcat(s[1..], c, t);
    }
  }

  lemma {:induction false} BeforeIsWholeIff(s: string, c: char)
    ensures |Before(s, c)| <= |s|
    ensures Before(s, c) == s <==> c !in s
  {
    if s != "" && s[0] != c {
      assert s == [s[0]] + s[1..];
      BeforeIsWholeIff(s[1..], c);
    }
  }

  /** The checker takes the old name up to its first blank, which is the old name iff it holds none. */
  lemma FileNameOfHeaderIff(a: string, b: string, eol: string)
    ensures IsDiff(DiffHeader(a, b, eol))
    ensures FileName(DiffHeader(a, b, eol)) == Before(a, ' ')
    ensures FileName(DiffHeader(a, b, eol)) == a <==> ' ' !in a
  {
    hide Before;
    var rest := "b/" + b + eol;
    var l := DiffHeader(a, b, eol);
    assert l[..10] == "diff --git";
    assert l[13..] == a + [' '] + rest;
    BeforeConcat(a, ' ', rest);
    BeforeIsWholeIff(a, ' ');
  }

  // ----- When two names mean the same policy

  /** What check_added_line and its caller let pass in a file of this name. */
  ghost predicate Passes(env: Env, file: string, submodule: bool, line: string) {
    IsRtf(file) || LineOk(env, file, EnforcesCrlf(file) && !submodule, line)
  }

  ghost predicate SamePolicy(env: Env, f: string, g: string, submodule: bool) {
    && (IsRtf(f) <==> IsRtf(g))
    && (!IsRtf(f) ==>
          && (submodule || (EnforcesCrlf(f) <==> EnforcesCrlf(g)))
          && (EnforcesNoTabs(f) <==> EnforcesNoTabs(g))
          && (env.isThisScript(f) <==> env.isThisScript(g)))
  }

  /** A blank is white space, 'x' and '_' are not, and none of three short texts is an old DEBUG macro. */
  ghost predicate Ordinary(env: Env) {
    && env.isSpace(' ') && !env.isSpace('x') && !env.isSpace('_')
    && !env.oldDebug("x") && !env.oldDebug("\tx") && !env.oldDebug("__FUNCTION__")
  }

  lemma {:induction false} ContainsNeedsRoom(s: string, part: string)
    requires |s| < |part|
    ensures !Contains(s, part)
    decreases |s|
  {
    if s != "" {
      ContainsNeedsRoom(s[1..], part);
    }
  }

  /** Lines that tell policies apart: a line feed alone, a tab, __FUNCTION__, a blank at the end. */
  lemma LineFeedAlone(env: Env, file: string, crlf: bool)
    requires Ordinary(env)
    ensures LineOk(env, file, crlf, "x\n") <==> !crlf
  {
    hide StripEndings, EndsWithOneCrlf, EnforcesNoTabs, Contains;
    assert "x\n" == "x" + "\n";
    SplitsOrdinaryLine("x", "\n");
    ContainsNeedsRoom("x", "Subproject commit");
    ContainsNeedsRoom("x", "__FUNCTION__");
    ReportsCrlfIff("x\n");
    assert |"\n"| != |CRLF|;
  }

  lemma EndsWithCrlf(body: string)
    requires !EndsInCrOrLf(body)
    ensures StripEndings(body + CRLF) == Ended(body, CRLF) && EndsWithOneCrlf(body + CRLF)
  {
    hide StripEndings, EndsWithOneCrlf, EndsInCrOrLf;
    SplitsOrdinaryLine(body, CRLF);
    ReportsCrlfIff(body + CRLF);
  }

  lemma TabbedLine(env: Env, file: string, crlf: bool)
    requires Ordinary(env)
    ensures LineOk(env, file, crlf, "\tx" + CRLF) <==> !EnforcesNoTabs(file)
  {
    hide StripEndings, EndsWithOneCrlf, EnforcesNoTabs, Contains;
    EndsWithCrlf("\tx");
    ContainsNeedsRoom("\tx", "__FUNCTION__");
    assert "\tx"[0] == '\t' && "\tx"[1] == 'x';
  }

  lemma FunctionLine(env: Env, file: string, crlf: bool)
    requires Ordinary(env)
    ensures LineOk(env, file, crlf, "__FUNCTION__" + CRLF) <==> env.isThisScript(file)
  {
    hide StripEndings, EndsWithOneCrlf, EnforcesNoTabs;
    EndsWithCrlf("__FUNCTION__");
  }

  lemma TrailingBlank(env: Env, file: string, crlf: bool)
    requires Ordinary(env)
    ensures !LineOk(env, file, crlf, " " + CRLF)
  {
    hide StripEndings, EndsWithOneCrlf, EnforcesNoTabs, Contains;
    EndsWithCrlf(" ");
  }

  /** Files of two names are judged alike, line for line, if and only if their names mean the same policy. */
  lemma JudgedAlikeIff(env: Env, f: string, g: string, submodule: bool)
    requires Ordinary(env)
    ensures (forall line :: Passes(env, f, submodule, line) <==> Passes(env, g, submodule, line))
            <==> SamePolicy(env, f, g, submodule)
  {
    hide IsRtf, EnforcesCrlf, EnforcesNoTabs, Ordinary, LineOk;
    if SamePolicy(env, f, g, submodule) {
      forall line ensures Passes(env, f, submodule, line) <==> Passes(env, g, submodule, line) {
        if !IsRtf(f) {
          SamePolicySameVerdict(env, f, g, EnforcesCrlf(f) && !submodule, line);
        }
      }
    } else if forall line :: Passes(env, f, submodule, line) <==> Passes(env, g, submodule, line) {
      var cf, cg := EnforcesCrlf(f) && !submodule, EnforcesCrlf(g) && !submodule;
      assert Passes(env, f, submodule, " " + CRLF) <==> Passes(env, g, submodule, " " + CRLF);
      assert Passes(env, f, submodule, "x\n") <==> Passes(env, g, submodule, "x\n");
      assert Passes(env, f, submodule, "\tx" + CRLF) <==> Passes(env, g, submodule, "\tx" + CRLF);
      assert Passes(env, f, submodule, "__FUNCTION__" + CRLF) <==> Passes(env, g, submodule, "__FUNCTION__" + CRLF);
      TellApart(env, f, cf);
      TellApart(env, g, cg);
    }
  }

  lemma SamePolicySameVerdict(env: Env, f: string, g: string, crlf: bool, line: string)
    requires EnforcesNoTabs(f) <==> EnforcesNoTabs(g)
    requires env.isThisScript(f) <==> env.isThisScript(g)
    ensures LineOk(env, f, crlf, line) <==> LineOk(env, g, crlf, line)
  {
    hide StripEndings, EndsWithOneCrlf, EnforcesNoTabs, Contains;
  }

  lemma TellApart(env: Env, file: string, crlf: bool)
    requires Ordinary(env)
    ensures !LineOk(env, file, crlf, " " + CRLF)
    ensures LineOk(env, file, crlf, "x\n") <==> !crlf
    ensures LineOk(env, file, crlf, "\tx" + CRLF) <==> !EnforcesNoTabs(file)
    ensures LineOk(env, file, crlf, "__FUNCTION__" + CRLF) <==> env.isThisScript(file)
  {
    TrailingBlank(env, file, crlf);
    LineFeedAlone(env, file, crlf);
    TabbedLine(env, file, crlf);
    FunctionLine(env, file, crlf);
  }

  // ----- Whose policy is applied

  /** The checker accepts line i of a diff: it is no added line, or meets the policy applied to it. */
  ghost predicate Accepted(env: Env, lines: seq<string>, i: nat)
    requires i < |lines|
  {
    RoleOf(env, lines, i) == Added ==> AddedLineOk(env, lines, i)
  }

  /** A '+' line of a text hunk is judged by the cut-off old name of its file. */
  lemma JudgedByOldName(env: Env, lines: seq<string>, i: nat, a: string, b: string, eol: string)
    requires i < |lines| && "+" <= lines[i] && SectionOf(lines, i).Body?
    requires !InBinary(lines, SectionOf(lines, i).opener, i)
    requires lines[SectionOf(lines, i).header] == DiffHeader(a, b, eol)
    ensures var s := SectionOf(lines, i);
            Accepted(env, lines, i)
            <==> Passes(env, Before(a, ' '), DeclaresSubmodule(lines, s.header, s.opener), lines[i][1..])
  {
    hide SectionOf, RoleOf, FileName, IsRtf, Before, LineOk, DiffHeader, EnforcesCrlf;
    FileNameOfHeaderIff(a, b, eol);
    AddedIff(env, lines, i);
  }

  /**
   The lines added to b are judged by the policy of b, whatever they are, if and only if the old
   name up to its first blank means the same policy. So it is for a file that keeps its name, if
   that holds no blank.
   */
  lemma JudgedAsNewFileIff(env: Env, a: string, b: string, eol: string, submodule: bool)
    requires Ordinary(env)
    ensures (forall line ::
               Passes(env, FileName(DiffHeader(a, b, eol)), submodule, line) <==> Passes(env, b, submodule, line))
            <==> SamePolicy(env, Before(a, ' '), b, submodule)
    ensures a == b && ' ' !in a ==> SamePolicy(env, Before(a, ' '), b, submodule)
  {
    hide FileName, Before, Passes, DiffHeader, SamePolicy;
    FileNameOfHeaderIff(a, b, eol);
    JudgedAlikeIff(env, Before(a, ' '), b, submodule);
    SamePolicyReflexive(env, b, submodule);
  }

  lemma SamePolicyReflexive(env: Env, f: string, submodule: bool)
    ensures SamePolicy(env, f, f, submodule)
  {
  }

  // ----- Two headers that mislead

  /** A shell script turned into a C file: line feeds alone pass, though C files need CRLF. */
  lemma RenameKeepsOldPolicy(env: Env)
    requires Ordinary(env)
    ensures FileName(DiffHeader("x.sh", "x.c", "\n")) == "x.sh"
    ensures Passes(env, "x.sh", false, "x\n") && !Passes(env, "x.c", false, "x\n")
  {
    hide FileName, LineOk, DiffHeader;
    FileNameOfHeaderIff("x.sh", "x.c", "\n");
    ShortNames();
    LineFeedAlone(env, "x.sh", false);
    LineFeedAlone(env, "x.c", true);
  }

  /** A shell script with a blank in its name: CRLF is demanded of it. */
  lemma BlankInNameLosesPolicy(env: Env)
    requires Ordinary(env)
    ensures FileName(DiffHeader("my x.sh", "my x.sh", "\n")) == "my"
    ensures Passes(env, "my x.sh", false, "x\n") && !Passes(env, "my", false, "x\n")
  {
    hide FileName, LineOk, DiffHeader, Before;
    FileNameOfHeaderIff("my x.sh", "my x.sh", "\n");
    assert "my x.sh" == "my" + [' '] + "x.sh";
    BeforeFirst("my", ' ', "x.sh");
    ShortNames();
    LineFeedAlone(env, "my x.sh", false);
    LineFeedAlone(env, "my", true);
  }

  lemma ShortNames()
    ensures !EnforcesCrlf("x.sh") && !EnforcesCrlf("my x.sh")
    ensures EnforcesCrlf("x.c") && !IsRtf("x.c")
    ensures EnforcesCrlf("my") && !IsRtf("my")
  {
    assert "my x.sh"[4..] == ".sh";
    assert "x.sh"[1..] == ".sh";
  }

  // ----- Which names mean which policy

  lemma {:induction false} BaseNameOf(dir: string, name: string)
    requires '/' !in name
    ensures BaseName(dir + ['/'] + name) == name
    decreases |dir|
  {
    var f := dir + ['/'] + name;
    assert f[|dir|] == '/';
    if dir == "" {
      assert f[1..] == name;
    } else {
      assert f[1..] == dir[1..] + ['/'] + name;
      BaseNameOf(dir[1..], name);
    }
  }

  lemma {:induction false} BaseNameEnd(f: string)
    requires f != "" && f[|f| - 1] != '/'
    ensures BaseName(f) != "" && BaseName(f)[|BaseName(f)| - 1] == f[|f| - 1]
    decreases |f|
  {
    if '/' in f {
      BaseNameEnd(f[1..]);
    }
  }

  lemma EndsWithEnd(f: string, suffix: string)
    requires suffix != "" && EndsWith(f, suffix)
    ensures f != "" && f[|f| - 1] == suffix[|suffix| - 1]
  {
    assert f[|f| - |suffix|..][|suffix| - 1] == f[|f| - 1];
  }

  lemma EndsWithOwn(stem: string, suffix: string)
    ensures EndsWith(stem + suffix, suffix)
  {
    assert (stem + suffix)[|stem|..] == suffix;
  }

  /** Line feeds alone are allowed in these files, whatever the stem. */
  lemma LineFeedFiles(stem: string)
    ensures !EnforcesCrlf(stem + ".rtf") && !EnforcesCrlf(stem + ".sh")
    ensures !EnforcesCrlf("BaseTools/BinWrappers/PosixLike/" + stem) && !EnforcesCrlf("BaseTools/BuildEnv")
    ensures !EnforcesCrlf(".gitmodules") && !EnforcesCrlf("BaseTools/Conf/diff.order")
  {
    EndsWithOwn(stem, ".rtf");
    EndsWithOwn(stem, ".sh");
    var prefix := "BaseTools/BinWrappers/PosixLike/";
    assert (prefix + stem)[..|prefix|] == prefix;
  }

  /** Tabs are allowed in these, whatever the stem and the directory. */
  lemma TabbedFiles(dir: string, stem: string)
    requires '/' !in stem && stem != "" && stem[0] != '.'
    ensures !EnforcesNoTabs(stem + ".rtf")
    ensures !EnforcesNoTabs(".gitmodules") && !EnforcesNoTabs("BaseTools/Conf/diff.order")
    ensures !EnforcesNoTabs(dir + ['/'] + "GNUmakefile")
    ensures !EnforcesNoTabs(dir + ['/'] + "Makefile")
    ensures !EnforcesNoTabs(dir + ['/'] + (stem + ".makefile"))
    ensures !EnforcesNoTabs("BaseTools/Source/C/VfrCompile/Pccts/" + stem)
  {
    hide BaseName, IsShellScript;
    EndsWithOwn(stem, ".rtf");
    EndsWithOwn(stem, ".makefile");
    BaseNameOf(dir, "GNUmakefile");
    BaseNameOf(dir, "Makefile");
    BaseNameOf(dir, stem + ".makefile");
    LowerMakefile();
    assert (stem + ".makefile")[0] == stem[0];
    var prefix := "BaseTools/Source/C/VfrCompile/Pccts/";
    assert (prefix + stem)[..|prefix|] == prefix;
  }

  lemma LowerMakefile()
    ensures Lower("Makefile") == "makefile"
  {
  }

  /** A C file must have CRLF and no tabs, unless its directory says otherwise. */
  lemma CFilePolicy(f: string)
    requires EndsWith(f, ".c")
    ensures EnforcesCrlf(f) <==> !("BaseTools/BinWrappers/PosixLike/" <= f)
    ensures EnforcesNoTabs(f) <==> !("BaseTools/Source/C/VfrCompile/Pccts/" <= f)
    ensures !IsRtf(f)
  {
    hide BaseName, EndsWith;
    EndsWithEnd(f, ".c");
    BaseNameEnd(f);
    var name := BaseName(f);
    assert f[|f| - 1] == 'c';
    if EndsWith(f, ".rtf") { EndsWithEnd(f, ".rtf"); }
    if EndsWith(f, ".sh") { EndsWithEnd(f, ".sh"); }
    if EndsWith(name, ".makefile") { EndsWithEnd(name, ".makefile"); }
    assert Lower(name)[|name| - 1] == 'c';
    assert "GNUmakefile"[10] == 'e' && "makefile"[7] == 'e';
  }

  // ----- The other demands on a line

  /** The old DEBUG macros are rejected in any file that is looked into. */
  lemma OldDebugLine(env: Env, file: string, crlf: bool, body: string)
    requires env.oldDebug(body) && !EndsInCrOrLf(body)
    ensures !LineOk(env, file, crlf, body + CRLF)
  {
    hide StripEndings, EndsWithOneCrlf, EnforcesNoTabs, Contains, EndsInCrOrLf;
    EndsWithCrlf(body);
  }

  /** The line that records a submodule may end in a line feed even where CRLF is demanded. */
  lemma SubprojectLine(env: Env, file: string, body: string)
    requires Contains(body, "Subproject commit") && !Contains(body, "__FUNCTION__")
    requires '\t' !in body && !EndsInCrOrLf(body) && !env.oldDebug(body)
    requires body == "" || !env.isSpace(body[|body| - 1])
    ensures LineOk(env, file, true, body + "\n")
  {
    hide StripEndings, EndsWithOneCrlf, EnforcesNoTabs, Contains, EndsInCrOrLf;
    SplitsOrdinaryLine(body, "\n");
  }
}
