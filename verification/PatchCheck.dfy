/**
 Class GitDiffCheck of PatchCheck.py: a three-state machine over the lines of a diff, with
 attributes that come into being only when the machine first needs them.
 */
module PatchCheck {
  import opened PatchCheckSpec
  import opened PyStrings
  import opened Wrappers

  datatype State = START | PRE_PATCH | PATCH

  /** The loop over line_endings. */
  method SplitEnding(text: string) returns (line: string, eol: string)
    ensures Ended(line, eol) == StripEndings(text)
  {
    hide StripEndings, StripFrom;
    eol, line := "", text;
    StripLoop(text);
    var k := 0;
    while k < |LINE_ENDINGS|
      invariant 0 <= k <= |LINE_ENDINGS|
      invariant StripFrom(Ended(line, eol), k) == StripEndings(text)
    {
      StripFromStep(Ended(line, eol), k);
      if EndsWith(line, LINE_ENDINGS[k]) {
        eol := LINE_ENDINGS[k];
        line := line[..|line| - |eol|];
      }
      k := k + 1;
    }
    assert StripFrom(Ended(line, eol), |LINE_ENDINGS|) == Ended(line, eol) by { StripFromEnd(Ended(line, eol)); }
  }

  /** The loop over pre_patch_prefixes. */
  method HasKnownPrefix(line: string) returns (known: bool)
    ensures known == IsExtendedHeader(line)
  {
    known := false;
    var k := 0;
    while k < |PRE_PATCH_PREFIXES|
      invariant 0 <= k <= |PRE_PATCH_PREFIXES|
      invariant known <==> exists j :: 0 <= j < k && PRE_PATCH_PREFIXES[j] <= line
    {
      if PRE_PATCH_PREFIXES[k] <= line {
        known := true;
      }
      k := k + 1;
    }
  }

  class GitDiffCheck {
    const env: Env
    const lines: seq<string>
    var ok: bool
    var formatOk: bool
    var lineNum: nat
    var state: State
    var newBin: seq<string>

    // Attributes that do not exist until they are first assigned.
    var filename: Option<string>
    var isNewFile: Option<bool>
    var forceCrlf: Option<bool>
    var forceNoTabs: Option<bool>
    var binary: Option<bool>

    /** The lines handed to check_added_line so far. */
    ghost var checked: seq<nat>

    /** The machine's memory of the section that the next line belongs to. */
    ghost predicate TracksSection(s: Section)
      reads this
      requires lineNum <= |lines|
      requires s == SectionOf(lines, lineNum)
    {
      match s
      case Outside => state == START
      case Preamble(h) =>
        && state == PRE_PATCH
        && TracksFile(h, lineNum)
        && isNewFile == Some(IsNewFile(lines, h, lineNum))
      case Body(h, o) =>
        && state == PATCH
        && TracksFile(h, o)
        && isNewFile.Some?
        && binary == Some(InBinary(lines, o, lineNum))
    }

    ghost predicate TracksFile(h: nat, preambleEnd: nat)
      reads this
      requires h < preambleEnd <= |lines|
    {
      && filename == Some(FileName(lines[h]))
      && forceNoTabs == Some(EnforcesNoTabs(FileName(lines[h])))
      && forceCrlf == Some(CrlfAt(lines, h, preambleEnd))
    }

    /** What the results say about the lines before i. */
    ghost predicate Reports(i: nat)
      reads this
      requires i <= |lines|
    {
      && checked == AddedLines(env, lines, i)
      && newBin == NewBinaries(env, lines, i)
      && (ok <==> formatOk && AllOk(env, lines, i))
    }

    /** No line before the current one has stopped the check. */
    ghost predicate Clean()
      reads this
    {
      && lineNum <= |lines|
      && formatOk
      && (forall k :: 0 <= k < lineNum ==> !Stops(env, lines, k))
      && Reports(lineNum)
    }

    ghost predicate Running()
      reads this
    {
      Clean() && TracksSection(SectionOf(lines, lineNum))
    }

    /** The check stopped at line i: no further line is looked at. */
    ghost predicate StoppedAt(i: nat)
      reads this
      requires i < |lines|
    {
      && Reports(i)
      && (formatOk <==> RoleOf(env, lines, i) == Trailer && forall k :: i < k < |lines| ==> !IsDiff(lines[k]))
      && lineNum <= |lines|
      && (lineNum == |lines| || !formatOk)
    }

    /**
     The constructor's loop. Each call of Run moves on, so the assertion in the loop can not
     fail; the lines checked, the binaries reported and the verdict are those of the diff up to
     the line at which checking stops. The last two clauses say when they are those of the whole
     diff, in terms of the lines behind the stop.
     */
    constructor (env: Env, diff: seq<string>)
      ensures lines == diff
      ensures checked == AddedLines(env, diff, Stop(env, diff))
      ensures newBin == NewBinaries(env, diff, Stop(env, diff))
      ensures formatOk == WellFormed(env, diff)
      ensures ok == DiffOk(env, diff)
      ensures Stop(env, diff) == |diff| ==> (ok <==> AllOk(env, diff, |diff|))
      ensures formatOk && Stop(env, diff) < |diff| ==>
                var s := Stop(env, diff);
                && SectionOf(diff, s).Body?
                && (checked == AddedLines(env, diff, |diff|) <==> NoneAddedBehind(diff, s))
                && ((ok <==> AllOk(env, diff, |diff|))
                    <==> !AllOk(env, diff, s) || PolicyHoldsBehind(env, diff, s))
    {
      this.env, lines := env, diff;
      ok, formatOk := true, true;
      lineNum, state, newBin := 0, START, [];
      filename, isNewFile, forceCrlf, forceNoTabs, binary := None, None, None, None, None;
      checked := [];
      new;
      hide RoleOf, AddedLines, NewBinaries, AddedLineOk, AllOk, Stop, WellFormed, DiffOk, Running;
      hide SectionOf, NoneAddedBehind, PolicyHoldsBehind;
      InitialState();
      RunAll();
      WholeDiffIff(env, lines);
    }

    /** The loop itself. */
    method RunAll()
      requires Running() && lineNum == 0
      modifies this
      ensures checked == AddedLines(env, lines, Stop(env, lines))
      ensures newBin == NewBinaries(env, lines, Stop(env, lines))
      ensures formatOk == WellFormed(env, lines)
      ensures ok == DiffOk(env, lines)
    {
      hide RoleOf, AddedLines, NewBinaries, SectionOf, AddedLineOk;
      ghost var stop := Stop(env, lines);
      while lineNum < |lines| && formatOk
        invariant lineNum <= |lines|
        invariant Running() || (stop < |lines| && StoppedAt(stop))
        decreases |lines| - lineNum
      {
        var before := lineNum;
        if lineNum == stop { assert Stops(env, lines, stop); }
        Run();
        assert lineNum > before;
      }
      assert Running() ==> stop == |lines|;
    }

    lemma InitialState()
      requires lineNum == 0 && state == START && formatOk && ok && newBin == [] && checked == []
      ensures Running()
    {
    }

    /** A line that did not stop the check has been consumed. */
    ghost predicate Moved(i: nat)
      reads this
      requires i < |lines|
    {
      if Stops(env, lines, i) then StoppedAt(i) else Running() && lineNum == i + 1
    }

    /** One call of run(). */
    method Run()
      requires Running()
      requires lineNum < |lines|
      modifies this
      ensures old(lineNum) < lineNum <= |lines|
      ensures Moved(old(lineNum))
    {
      hide IsDiff, IsHunk, IsBinaryMarker, IsSubmodule, IsTrailer, IsExtendedHeader, IsNewFileIndex;
      hide FileName, EnforcesNoTabs, EnforcesCrlf, Header, FirstOpener, SectionOf, Blank, IsNewFile, InBinary;
      hide AddedLines, NewBinaries, AllOk;
      var line := lines[lineNum];
      if state in {PRE_PATCH, PATCH} {
        if IsDiff(line) {
          state := START;
        }
      }
      if state == PATCH {
        if IsHunk(line) {
          state := PRE_PATCH;
        } else if IsTrailer(line) && !binary.value {
          SearchTrailer();
          return;
        }
      }
      match state {
        case START => RunStart(line);
        case PRE_PATCH => RunPrePatch(line);
        case PATCH => RunPatch(line);
      }
    }

    /** Nothing before line i stopped the check, and line i has been consumed. */
    ghost predicate Consumed(i: nat)
      reads this
      requires i < |lines|
    {
      && lineNum == i + 1
      && checked == AddedLines(env, lines, i)
      && (forall k :: 0 <= k < i ==> !Stops(env, lines, k))
    }

    /** A line without results of its own has been consumed. */
    lemma MovedPastPlain(i: nat)
      requires i < |lines| && Consumed(i)
      requires newBin == NewBinaries(env, lines, i) && (ok <==> formatOk && AllOk(env, lines, i))
      requires formatOk ==> RoleOf(env, lines, i) == Plain && TracksSection(SectionOf(lines, i + 1))
      requires !formatOk ==> RoleOf(env, lines, i) == Malformed
      ensures Moved(i)
    {
      hide RoleOf, AddedLines, NewBinaries, AllOk, SectionOf, TracksSection;
      ResultsStep(env, lines, i);
    }

    /** An added line has been consumed. */
    lemma MovedPastAdded(i: nat)
      requires lineNum == i + 1 <= |lines| && formatOk
      requires forall k :: 0 <= k < i ==> !Stops(env, lines, k)
      requires RoleOf(env, lines, i) == Added && TracksSection(SectionOf(lines, i + 1))
      requires checked == AddedLines(env, lines, i) + [i] && newBin == NewBinaries(env, lines, i)
      requires ok <==> AllOk(env, lines, i) && AddedLineOk(env, lines, i)
      ensures Moved(i)
    {
      hide RoleOf, AddedLines, NewBinaries, AllOk, AddedLineOk, SectionOf, TracksSection;
      ResultsStep(env, lines, i);
    }

    /** The marker of a binary patch has been consumed. */
    lemma MovedPastBinary(i: nat, h: nat)
      requires i < |lines| && Consumed(i)
      requires SectionOf(lines, i) == Preamble(h) && RoleOf(env, lines, i) == Binary
      requires newBin
               == NewBinaries(env, lines, i) + if IsNewFile(lines, h, i) then [FileName(lines[h])] else []
      requires formatOk && (ok <==> AllOk(env, lines, i)) && TracksSection(SectionOf(lines, i + 1))
      ensures Moved(i)
    {
      hide RoleOf, AddedLines, NewBinaries, AllOk, SectionOf, TracksSection, IsNewFile, FileName;
      ResultsStep(env, lines, i);
    }

    /** The file that line i belongs to is known, whether or not its hunks have begun. */
    ghost predicate KnowsFile(i: nat)
      reads this
      requires i < |lines|
    {
      match SectionOf(lines, i)
      case Outside => false
      case Preamble(h) => TracksFile(h, i)
      case Body(h, o) => TracksFile(h, o)
    }

    /** After a "diff --git" line. */
    lemma TracksDiff(i: nat)
      requires lineNum == i + 1 <= |lines|
      requires IsDiff(lines[i]) && state == PRE_PATCH && isNewFile == Some(false)
      requires filename == Some(FileName(lines[i]))
      requires forceCrlf == Some(EnforcesCrlf(FileName(lines[i])))
      requires forceNoTabs == Some(EnforcesNoTabs(FileName(lines[i])))
      ensures TracksSection(SectionOf(lines, i + 1)) && RoleOf(env, lines, i) == Plain
    {
      hide IsDiff, FileName, SectionOf, EnforcesCrlf, EnforcesNoTabs;
      SectionStep(lines, i);
    }

    /** After a line before the first "diff --git". */
    lemma TracksOutside(i: nat)
      requires lineNum == i + 1 <= |lines|
      requires !IsDiff(lines[i]) && state == START && SectionOf(lines, i) == Outside
      ensures TracksSection(SectionOf(lines, i + 1))
      ensures RoleOf(env, lines, i) == if Blank(env.isSpace, lines[i]) then Plain else Malformed
    {
      hide IsDiff, SectionOf, Blank;
      SectionStep(lines, i);
    }

    /** State START: a "diff --git" line opens a file and fixes its policy. */
    method RunStart(line: string)
      requires Clean() && lineNum < |lines| && line == lines[lineNum]
      requires state == START
      requires IsDiff(line) || SectionOf(lines, lineNum) == Outside
      modifies this
      ensures old(lineNum) < lineNum <= |lines|
      ensures Moved(old(lineNum))
    {
      hide IsDiff, FileName, Header, FirstOpener, SectionOf, Blank, RStrip, AddedLineOk, RoleOf;
      hide EnforcesCrlf, EnforcesNoTabs, AddedLines, NewBinaries, AllOk, TracksSection;
      hide Moved;
      ghost var i := lineNum;
      RStripBlank(env.isSpace, line);
      if IsDiff(line) {
        state := PRE_PATCH;
        filename := Some(FileName(line));
        isNewFile := Some(false);
        SetPolicy();
      } else if |RStrip(env.isSpace, line)| != 0 {
        FormatError();
      }
      lineNum := lineNum + 1;
      if IsDiff(line) { TracksDiff(i); } else { TracksOutside(i); }
      MovedPastPlain(i);
    }

    /** The line-ending and tab policy of the current file. */
    method SetPolicy()
      requires filename.Some?
      modifies this`forceCrlf, this`forceNoTabs
      ensures forceCrlf == Some(EnforcesCrlf(filename.value))
      ensures forceNoTabs == Some(EnforcesNoTabs(filename.value))
    {
      hide IsRtf, IsGitInternal, IsShellScript, IsMakefile;
      forceCrlf := Some(true);
      forceNoTabs := Some(true);
      if IsRtf(filename.value) {
        forceCrlf := Some(false);
        forceNoTabs := Some(false);
      }
      if IsShellScript(filename.value) {
        forceCrlf := Some(false);
      }
      if IsGitInternal(filename.value) {
        forceCrlf := Some(false);
        forceNoTabs := Some(false);
      }
      if IsMakefile(filename.value) {
        forceNoTabs := Some(false);
      }
    }

    /** After the header of a hunk. */
    lemma TracksHunk(i: nat)
      requires lineNum == i + 1 <= |lines|
      requires !IsDiff(lines[i]) && IsHunk(lines[i]) && KnowsFile(i)
      requires state == PATCH && isNewFile.Some? && binary == Some(false)
      ensures TracksSection(SectionOf(lines, i + 1)) && RoleOf(env, lines, i) == Plain
    {
      hide IsDiff, IsHunk, FileName, EnforcesNoTabs, CrlfAt, SectionOf;
      SectionStep(lines, i);
    }

    /** After the marker of a binary patch. */
    lemma TracksBinary(i: nat)
      requires lineNum == i + 1 <= |lines|
      requires !IsDiff(lines[i]) && !IsHunk(lines[i]) && IsBinaryMarker(lines[i])
      requires SectionOf(lines, i).Preamble? && KnowsFile(i)
      requires state == PATCH && isNewFile.Some? && binary == Some(true)
      ensures TracksSection(SectionOf(lines, i + 1)) && RoleOf(env, lines, i) == Binary
    {
      hide IsDiff, IsHunk, IsBinaryMarker, FileName, EnforcesNoTabs, CrlfAt, SectionOf;
      SectionStep(lines, i);
    }

    /** After the declaration of a submodule. */
    lemma TracksSubmodule(i: nat, h: nat)
      requires lineNum == i + 1 <= |lines|
      requires !IsDiff(lines[i]) && !IsOpener(lines[i]) && IsSubmodule(lines[i])
      requires SectionOf(lines, i) == Preamble(h) && state == PRE_PATCH
      requires filename == Some(FileName(lines[h])) && forceNoTabs == Some(EnforcesNoTabs(FileName(lines[h])))
      requires forceCrlf == Some(false) && isNewFile == Some(IsNewFile(lines, h, i))
      ensures TracksSection(SectionOf(lines, i + 1)) && RoleOf(env, lines, i) == Plain
    {
      hide IsDiff, IsHunk, IsBinaryMarker, IsSubmodule, FileName, EnforcesNoTabs, EnforcesCrlf, SectionOf;
      hide IsNewFile, DeclaresSubmodule;
      SectionStep(lines, i);
      PreambleStep(lines, h, i);
    }

    /** After any other line of a preamble. */
    lemma TracksExtended(i: nat, h: nat)
      requires lineNum == i + 1 <= |lines|
      requires !IsDiff(lines[i]) && !IsOpener(lines[i]) && !IsSubmodule(lines[i])
      requires SectionOf(lines, i) == Preamble(h) && state == PRE_PATCH
      requires TracksFile(h, i) && isNewFile == Some(IsNewFileIndex(lines[i]))
      ensures TracksSection(SectionOf(lines, i + 1))
      ensures RoleOf(env, lines, i) == if IsExtendedHeader(lines[i]) then Plain else Malformed
    {
      hide IsDiff, IsHunk, IsBinaryMarker, IsSubmodule, FileName, EnforcesNoTabs, EnforcesCrlf, SectionOf;
      hide IsNewFile, DeclaresSubmodule, IsNewFileIndex, IsExtendedHeader;
      SectionStep(lines, i);
      PreambleStep(lines, h, i);
    }

    /** State PRE_PATCH: extended headers up to a hunk or binary marker. */
    method RunPrePatch(line: string)
      requires Clean() && lineNum < |lines| && line == lines[lineNum]
      requires state == PRE_PATCH && !IsDiff(line)
      requires match SectionOf(lines, lineNum)
               case Outside => false
               case Preamble(h) => TracksFile(h, lineNum) && isNewFile == Some(IsNewFile(lines, h, lineNum))
               case Body(h, o) => TracksFile(h, o) && isNewFile.Some? && IsHunk(line)
      modifies this
      ensures old(lineNum) < lineNum <= |lines|
      ensures Moved(old(lineNum))
    {
      hide IsDiff, IsHunk, IsBinaryMarker, IsSubmodule, IsExtendedHeader, IsNewFileIndex, AddedLineOk, RoleOf;
      hide FileName, EnforcesNoTabs, EnforcesCrlf, Header, FirstOpener, SectionOf, Blank, IsNewFile, CrlfAt;
      hide AddedLines, NewBinaries, AllOk, TracksSection, Moved;
      ghost var i, h := lineNum, SectionOf(lines, lineNum).header;
      if IsHunk(line) {
        state := PATCH;
        binary := Some(false);
      } else if IsBinaryMarker(line) {
        state := PATCH;
        binary := Some(true);
        if isNewFile.value {
          newBin := newBin + [filename.value];
        }
      } else if IsSubmodule(line) {
        forceCrlf := Some(false);
      } else {
        isNewFile := Some(IsNewFileIndex(line));
        var known := HasKnownPrefix(line);
        if !known {
          FormatError();
        }
      }
      lineNum := lineNum + 1;
      if IsHunk(line) {
        TracksHunk(i);
        MovedPastPlain(i);
      } else if IsBinaryMarker(line) {
        TracksBinary(i);
        MovedPastBinary(i, h);
      } else if IsSubmodule(line) {
        TracksSubmodule(i, h);
        MovedPastPlain(i);
      } else {
        TracksExtended(i, h);
        MovedPastPlain(i);
      }
    }

    /** After a line of a hunk or of a binary patch. */
    lemma TracksBody(i: nat, h: nat, o: nat)
      requires lineNum == i + 1 <= |lines|
      requires SectionOf(lines, i) == Body(h, o) && !IsDiff(lines[i]) && !IsHunk(lines[i])
      requires state == PATCH && TracksFile(h, o) && isNewFile.Some? && binary == Some(InBinary(lines, o, i))
      requires !IsTrailer(lines[i]) || binary.value
      ensures TracksSection(SectionOf(lines, i + 1))
      ensures RoleOf(env, lines, i)
              == if binary.value || IsRtf(filename.value) then Plain
                 else if "+" <= lines[i] then Added
                 else if lines[i] == "" then Malformed
                 else Plain
    {
      hide IsDiff, IsHunk, FileName, IsRtf, EnforcesNoTabs, CrlfAt, SectionOf, IsTrailer;
      SectionStep(lines, i);
    }

    /** State PATCH: the lines of a hunk or of a binary patch. */
    method RunPatch(line: string)
      requires Running() && lineNum < |lines| && line == lines[lineNum]
      requires state == PATCH && !IsDiff(line) && !IsHunk(line)
      requires !IsTrailer(line) || binary.value
      modifies this
      ensures old(lineNum) < lineNum <= |lines|
      ensures Moved(old(lineNum))
    {
      hide IsDiff, IsHunk, IsBinaryMarker, Header, FirstOpener, SectionOf, FileName, EnforcesCrlf, EnforcesNoTabs, LineOk, IsRtf;
      hide AddedLines, NewBinaries, AllOk, IsTrailer, RoleOf, CrlfAt, InBinary, Moved;
      ghost var i, s := lineNum, SectionOf(lines, lineNum);
      HunkLineShapes(line);
      if binary.value || IsRtf(filename.value) {
      } else if "-" <= line {
      } else if "+" <= line {
        CheckAddedLine(line[1..]);
        checked := checked + [lineNum];
      } else if "\r\n" <= line {
      } else if "\\ No newline " <= line {
      } else if !(" " <= line) {
        FormatError();
      }
      lineNum := lineNum + 1;
      TracksBody(i, s.header, s.opener);
      if RoleOf(env, lines, i) == Added { MovedPastAdded(i); } else { MovedPastPlain(i); }
    }

    /** check_added_line, with its ending loop that does not break. */
    method CheckAddedLine(text: string)
      requires filename.Some? && forceCrlf.Some? && forceNoTabs.Some?
      requires forceNoTabs.value == EnforcesNoTabs(filename.value)
      modifies this`ok
      ensures ok == (old(ok) && LineOk(env, filename.value, forceCrlf.value, text))
    {
      hide EnforcesNoTabs, Contains, EndsWithOneCrlf, EndsWith, StripEndings, RStrip;
      var line, eol := SplitEnding(text);
      ReportsCrlfIff(text);
      RStripBlank(env.isSpace, line);
      var stripped := RStrip(env.isSpace, line);
      if forceCrlf.value && eol != "\r\n" && !Contains(line, "Subproject commit") {
        AddedLineError();
      }
      if forceNoTabs.value && '\t' in line {
        AddedLineError();
      }
      if |stripped| < |line| {
        AddedLineError();
      }
      if env.oldDebug(line) {
        AddedLineError();
      }
      if Contains(line, "__FUNCTION__") && !env.isThisScript(filename.value) {
        AddedLineError();
      }
    }

    /** added_line_error names the file, so the file must be known. */
    method AddedLineError()
      requires filename.Some?
      modifies this`ok
      ensures !ok
    {
      Error();
    }

    /** The patch has ended: the remaining lines are only searched for another diff. */
    method SearchTrailer()
      requires Running() && lineNum < |lines|
      requires RoleOf(env, lines, lineNum) == Trailer
      modifies this
      ensures old(lineNum) < lineNum <= |lines|
      ensures StoppedAt(old(lineNum))
    {
      hide RoleOf, AddedLines, NewBinaries, SectionOf, AddedLineOk, IsDiff;
      var i := lineNum + 1;
      while i < |lines|
        invariant lineNum + 1 <= i <= |lines|
        invariant forall k :: lineNum < k < i ==> !IsDiff(lines[k])
        invariant Running() && lineNum == old(lineNum)
      {
        if IsDiff(lines[i]) {
          FormatError();
          break;
        }
        i := i + 1;
      }
      lineNum := |lines|;
    }

    method FormatError()
      requires lineNum < |lines|
      modifies this`formatOk, this`ok
      ensures !formatOk && !ok
    {
      formatOk := false;
      Error();
    }

    method Error()
      modifies this`ok
      ensures !ok
    {
      ok := false;
    }
  }
}
