/**
 What git prints for a list of file changes, and what the checker makes of it. The printer has
 its own header texts, those of the "generating patch text" section of git's documentation, so
 that the checker's tests are measured against git and not against themselves.
 */
module GitDiff {
  import opened PatchCheckNames
  import opened PatchCheckSpec
  import opened PyStrings
  import opened Wrappers

  // ----- File changes

  /** An extended header; the field is the rest of the line, with its ending. */
  datatype ExtendedHeader =
    | OldMode(mode: string)
    | NewMode(mode: string)
    | DeletedFileMode(mode: string)
    | NewFileMode(mode: string)
    | CopyFrom(path: string)
    | CopyTo(path: string)
    | RenameFrom(path: string)
    | RenameTo(path: string)
    | SimilarityIndex(percent: string)
    | DissimilarityIndex(percent: string)

  /** Blob names before and after. */
  datatype Index = Index(before: string, after: string)

  datatype HunkLine =
    | Context(text: string)
    | EmptyContext                  // a CRLF line under diff.suppressBlankEmpty
    | Removed(text: string)
    | Inserted(text: string)
    | NoNewline

  datatype Hunk = Hunk(ranges: string, lines: seq<HunkLine>)

  datatype BinaryLine = Literal(size: string) | Delta(size: string) | Data(encoded: string) | BlankLine

  datatype Content =
    | Nothing                                                       // a change of mode or name only
    | Text(from: string, to: string, hunks: seq<Hunk>)
    | BinaryPatch(data: seq<BinaryLine>)
    | BinaryDiffer(names: string)

  datatype Change = Change(before: string, after: string, eol: string, headers: seq<ExtendedHeader>,
                           index: Option<Index>, content: Content)

  /** Blob names are hexadecimal, and base-85 data has no blanks. */
  ghost predicate ValidChange(c: Change) {
    && (c.index.Some? ==> c.index.value.before != "" && '.' !in c.index.value.before)
    && (c.content.BinaryPatch? ==> forall l :: l in c.content.data && l.Data? ==> ' ' !in l.encoded)
  }

  /** The file did not exist before: git prints a blob name of zeros only. */
  predicate IsNew(c: Change) {
    c.index.Some? && AllZeros(c.index.value.before)
  }

  predicate IsSubmoduleHeader(h: ExtendedHeader) {
    h.NewFileMode? && "160000" <= h.mode
  }

  predicate AddsSubmodule(c: Change) {
    exists k :: 0 <= k < |c.headers| && IsSubmoduleHeader(c.headers[k])
  }

  /** The name by which the checker judges the change. */
  function JudgedName(c: Change): string { Before(c.before, ' ') }

  // ----- The printer

  function HeaderText(h: ExtendedHeader): string {
    match h
    case OldMode(mode) => "old mode " + mode
    case NewMode(mode) => "new mode " + mode
    case DeletedFileMode(mode) => "deleted file mode " + mode
    case NewFileMode(mode) => "new file mode " + mode
    case CopyFrom(path) => "copy from " + path
    case CopyTo(path) => "copy to " + path
    case RenameFrom(path) => "rename from " + path
    case RenameTo(path) => "rename to " + path
    case SimilarityIndex(percent) => "similarity index " + percent
    case DissimilarityIndex(percent) => "dissimilarity index " + percent
  }

  /** What a printed line is: the purpose it was printed for, not what it looks like. */
  datatype Kind =
    | Meta                                        // part of a header, a hunk header, or unchanged text
    | Dissimilarity
    | BinaryMarker(added: Option<string>)         // with the judged name of a file that is new
    | Plus(file: string, crlf: bool)              // an added line to be judged so

  datatype Line = Line(text: string, kind: Kind)

  function HeaderLine(h: ExtendedHeader): Line {
    Line(HeaderText(h), if h.DissimilarityIndex? then Dissimilarity else Meta)
  }

  function HeaderLines(headers: seq<ExtendedHeader>): seq<Line> {
    seq(|headers|, i requires 0 <= i < |headers| => HeaderLine(headers[i]))
  }

  function IndexLines(index: Option<Index>): seq<Line> {
    match index
    case None => []
    case Some(i) => [Line("index " + (i.before + (".." + i.after)), Meta)]
  }

  function HunkLineText(l: HunkLine): string {
    match l
    case Context(text) => " " + text
    case EmptyContext => "\r\n"
    case Removed(text) => "-" + text
    case Inserted(text) => "+" + text
    case NoNewline => "\\ No newline at end of file\n"
  }

  /** Files named *.rtf are not looked into. */
  function HunkLineOf(c: Change, l: HunkLine): Line {
    Line(HunkLineText(l),
         if l.Inserted? && !EndsWith(JudgedName(c), ".rtf")
         then Plus(JudgedName(c), EnforcesCrlf(JudgedName(c)) && !AddsSubmodule(c))
         else Meta)
  }

  function HunkLines(c: Change, h: Hunk): seq<Line> {
    [Line("@@ " + h.ranges, Meta)] + seq(|h.lines|, i requires 0 <= i < |h.lines| => HunkLineOf(c, h.lines[i]))
  }

  function HunksLines(c: Change, hunks: seq<Hunk>): seq<Line> {
    if hunks == [] then [] else HunkLines(c, hunks[0]) + HunksLines(c, hunks[1..])
  }

  function BinaryLineText(l: BinaryLine): string {
    match l
    case Literal(size) => "literal " + size
    case Delta(size) => "delta " + size
    case Data(encoded) => encoded
    case BlankLine => "\n"
  }

  function MarkerKind(c: Change): Kind {
    BinaryMarker(if IsNew(c) then Some(JudgedName(c)) else None)
  }

  /** The lines between the "diff --git" line and the content proper. */
  function PreambleLines(c: Change): seq<Line> {
    HeaderLines(c.headers) + IndexLines(c.index)
    + match c.content
      case Text(from, to, _) => [Line("--- " + from, Meta), Line("+++ " + to, Meta)]
      case _ => []
  }

  function ContentLines(c: Change): seq<Line> {
    match c.content
    case Nothing => []
    case Text(_, _, hunks) => HunksLines(c, hunks)
    case BinaryPatch(data) =>
      [Line("GIT binary patch\n", MarkerKind(c))]
      + seq(|data|, i requires 0 <= i < |data| => Line(BinaryLineText(data[i]), Meta))
    case BinaryDiffer(names) => [Line("Binary files " + names, MarkerKind(c))]
  }

  function ChangeLines(c: Change): seq<Line> {
    [Line(DiffHeader(c.before, c.after, c.eol), Meta)] + PreambleLines(c) + ContentLines(c)
  }

  function DiffLines(changes: seq<Change>): seq<Line> {
    if changes == [] then [] else ChangeLines(changes[0]) + DiffLines(changes[1..])
  }

  function Texts(d: seq<Line>): seq<string> {
    seq(|d|, i requires 0 <= i < |d| => d[i].text)
  }

  // ----- What the texts look like

  /** Texts that open nothing, told by their first characters. */
  lemma OpensNothing(t: string)
    requires |t| >= 3 && t[0] !in {'@', 'G', 'B'} && (t[0] == 'd' ==> t[2] != 'f')
    ensures !IsDiff(t) && !IsOpener(t)
  {
    assert "diff --git"[0] == 'd' && "diff --git"[2] == 'f';
    assert "@@ "[0] == '@' && "GIT binary patch"[0] == 'G' && "Binary files"[0] == 'B';
  }

  lemma NoSubmodule(t: string)
    requires t != "" && (t[0] != 'n' || (|t| >= 5 && t[4] != 'f'))
    ensures !IsSubmodule(t)
  {
    assert "new file mode 160000"[0] == 'n' && "new file mode 160000"[4] == 'f';
  }

  lemma NoIndex(t: string)
    requires t != "" && t[0] != 'i'
    ensures !IsNewFileIndex(t)
  {
    assert "index 0"[0] == 'i';
  }

  lemma HeaderTextOpensNothing(h: ExtendedHeader)
    ensures var t := HeaderText(h); !IsDiff(t) && !IsOpener(t) && !IsNewFileIndex(t)
  {
    hide IsDiff, IsOpener, IsNewFileIndex;
    var t := HeaderText(h);
    match h {
      case OldMode(_) => assert t[0] == 'o';
      case NewMode(_) => assert t[0] == 'n';
      case DeletedFileMode(_) => assert t[0] == 'd' && t[2] == 'l';
      case NewFileMode(_) => assert t[0] == 'n';
      case CopyFrom(_) => assert t[0] == 'c';
      case CopyTo(_) => assert t[0] == 'c';
      case RenameFrom(_) => assert t[0] == 'r';
      case RenameTo(_) => assert t[0] == 'r';
      case SimilarityIndex(_) => assert t[0] == 's';
      case DissimilarityIndex(_) => assert t[0] == 'd' && t[2] == 's';
    }
    OpensNothing(t);
    NoIndex(t);
  }

  lemma HeaderTextSubmodule(h: ExtendedHeader)
    ensures IsSubmodule(HeaderText(h)) <==> IsSubmoduleHeader(h)
  {
    hide IsSubmodule;
    var t := HeaderText(h);
    match h {
      case NewFileMode(mode) => SubmoduleShape(mode);
      case NewMode(_) => assert t[4] == 'm'; NoSubmodule(t);
      case OldMode(_) => assert t[0] == 'o'; NoSubmodule(t);
      case DeletedFileMode(_) => assert t[0] == 'd'; NoSubmodule(t);
      case CopyFrom(_) => assert t[0] == 'c'; NoSubmodule(t);
      case CopyTo(_) => assert t[0] == 'c'; NoSubmodule(t);
      case RenameFrom(_) => assert t[0] == 'r'; NoSubmodule(t);
      case RenameTo(_) => assert t[0] == 'r'; NoSubmodule(t);
      case SimilarityIndex(_) => assert t[0] == 's'; NoSubmodule(t);
      case DissimilarityIndex(_) => assert t[0] == 'd'; NoSubmodule(t);
    }
  }

  lemma Listed(t: string, k: nat)
    requires k < |PRE_PATCH_PREFIXES| && PRE_PATCH_PREFIXES[k] <= t
    ensures IsExtendedHeader(t)
  {
  }

  /** The checker knows every extended header but one. */
  lemma HeaderIsKnownIff(h: ExtendedHeader)
    ensures IsExtendedHeader(HeaderText(h)) <==> !h.DissimilarityIndex?
  {
    hide IsExtendedHeader;
    var t := HeaderText(h);
    match h {
      case OldMode(_) => Listed(t, 5);
      case NewMode(_) => Listed(t, 6);
      case DeletedFileMode(_) => Listed(t, 4);
      case NewFileMode(_) => Listed(t, 3);
      case CopyFrom(_) => Listed(t, 8);
      case CopyTo(_) => Listed(t, 9);
      case RenameFrom(_) => Listed(t, 10);
      case RenameTo(_) => Listed(t, 10);
      case SimilarityIndex(_) => Listed(t, 7);
      case DissimilarityIndex(percent) => DissimilarityIsUnknown(percent);
    }
  }

  lemma DissimilarityIsUnknown(percent: string)
    ensures !IsExtendedHeader("dissimilarity index " + percent)
  {
    var t := "dissimilarity index " + percent;
    assert t[0] == 'd' && t[1] == 'i';
    forall k | 0 <= k < |PRE_PATCH_PREFIXES| ensures !(PRE_PATCH_PREFIXES[k] <= t) {
      assert PRE_PATCH_PREFIXES[k][0] != 'd' || PRE_PATCH_PREFIXES[k][1] != 'i';
    }
  }

  lemma SubmoduleShape(mode: string)
    ensures IsSubmodule("new file mode " + mode) <==> "160000" <= mode
  {
    var t := "new file mode " + mode;
    var pattern := "new file mode 160000";
    assert pattern == "new file mode " + "160000";
    if pattern <= t {
      assert t[14..20] == pattern[14..20];
      assert mode[..6] == t[14..20];
    }
    if "160000" <= mode {
      assert t[..20] == "new file mode " + mode[..6];
    }
  }

  predicate AllZeros(s: string) {
    s == "" || (s[0] == '0' && AllZeros(s[1..]))
  }

  lemma {:induction false} SkipZerosBefore(zeros: string, rest: string)
    requires '.' !in zeros
    ensures ".." <= SkipZeroDigits(zeros + (".." + rest)) <==> AllZeros(zeros)
    decreases |zeros|
  {
    var s := zeros + (".." + rest);
    if zeros == "" {
      assert s == ".." + rest;
      assert s[0] == '.';
    } else if zeros[0] == '0' {
      assert s[..1] == "0";
      assert s[1..] == zeros[1..] + (".." + rest);
      SkipZerosBefore(zeros[1..], rest);
    } else {
      assert s[0] == zeros[0] && zeros[0] in zeros;
    }
  }

  lemma IndexText(i: Index)
    requires i.before != "" && '.' !in i.before
    ensures var t := "index " + (i.before + (".." + i.after));
            && !IsDiff(t) && !IsOpener(t) && !IsSubmodule(t) && IsExtendedHeader(t)
            && (IsNewFileIndex(t) <==> AllZeros(i.before))
  {
    hide IsDiff, IsOpener, IsSubmodule, IsExtendedHeader, SkipZeroDigits;
    var rest := i.before + (".." + i.after);
    var t := "index " + rest;
    assert t[0] == 'i';
    OpensNothing(t);
    NoSubmodule(t);
    Listed(t, 2);
    assert t[6..] == rest;
    SkipZerosBefore(i.before, i.after);
    if AllZeros(i.before) {
      assert t[..7] == "index 0";
    }
  }

  lemma FileLineText(t: string)
    requires "--- " <= t || "+++ " <= t
    ensures !IsDiff(t) && !IsOpener(t) && !IsSubmodule(t) && IsExtendedHeader(t)
  {
    hide IsDiff, IsOpener, IsSubmodule, IsExtendedHeader;
    Listed(t, if "--- " <= t then 0 else 1);
    assert |t| >= 4 && t[0] in {'-', '+'};
    OpensNothing(t);
    NoSubmodule(t);
  }

  /** The lines of a preamble: known headers, and the one that is not. */
  ghost predicate IsPreambleLine(l: Line) {
    && !IsDiff(l.text) && !IsOpener(l.text)
    && (l.kind == Meta || l.kind == Dissimilarity)
    && (l.kind == Meta <==> IsSubmodule(l.text) || IsExtendedHeader(l.text))
  }

  lemma PreambleShape(c: Change, k: nat)
    requires ValidChange(c) && k < |PreambleLines(c)|
    ensures IsPreambleLine(PreambleLines(c)[k])
    ensures IsSubmodule(PreambleLines(c)[k].text) <==> k < |c.headers| && IsSubmoduleHeader(c.headers[k])
    ensures IsNewFileIndex(PreambleLines(c)[k].text) ==> k == |c.headers| && IsNew(c)
    ensures k == |c.headers| && IsNew(c) ==> IsNewFileIndex(PreambleLines(c)[k].text)
  {
    hide IsDiff, IsOpener, IsSubmodule, IsExtendedHeader, IsNewFileIndex, HeaderText;
    var l := PreambleLines(c)[k];
    if k < |c.headers| {
      assert l == HeaderLine(c.headers[k]);
      HeaderTextOpensNothing(c.headers[k]);
      HeaderTextSubmodule(c.headers[k]);
      HeaderIsKnownIff(c.headers[k]);
    } else if c.index.Some? && k == |c.headers| {
      IndexText(c.index.value);
    } else {
      assert l.text[..4] == "--- " || l.text[..4] == "+++ ";
      FileLineText(l.text);
      NoIndex(l.text);
    }
  }

  lemma HunkLineShape(l: HunkLine)
    ensures var t := HunkLineText(l);
            && t != "" && !IsDiff(t) && !IsHunk(t) && !IsTrailer(t)
            && ("+" <= t <==> l.Inserted?)
  {
    var t := HunkLineText(l);
    match l {
      case Context(_) => assert t[0] == ' ';
      case EmptyContext => assert t[0] == '\r' && t[..2] == "\r\n";
      case Removed(_) => assert t[0] == '-';
      case Inserted(_) => assert t[0] == '+';
      case NoNewline => assert t[0] == '\\' && t[..13] == "\\ No newline ";
    }
    assert "diff --git"[0] == 'd' && "@@ "[0] == '@';
  }

  ghost predicate IsHunkPart(c: Change, l: Line) {
    || (IsHunk(l.text) && !IsDiff(l.text) && l.kind == Meta)
    || exists h :: l == HunkLineOf(c, h)
  }

  lemma HunkHeaderShape(ranges: string)
    ensures IsHunk("@@ " + ranges) && !IsDiff("@@ " + ranges) && !IsBinaryMarker("@@ " + ranges)
  {
    var t := "@@ " + ranges;
    assert t[0] == '@' && t[..3] == "@@ ";
    assert "diff --git"[0] == 'd' && "GIT binary patch"[0] == 'G' && "Binary files"[0] == 'B';
  }

  lemma {:induction false} HunksShape(c: Change, hunks: seq<Hunk>, k: nat)
    requires k < |HunksLines(c, hunks)|
    ensures IsHunkPart(c, HunksLines(c, hunks)[k])
    ensures k == 0 ==> IsHunk(HunksLines(c, hunks)[k].text) && HunksLines(c, hunks)[k].kind == Meta
    decreases |hunks|
  {
    hide IsHunk, IsDiff, HunkLineOf;
    var first := HunkLines(c, hunks[0]);
    var l := HunksLines(c, hunks)[k];
    if k >= |first| {
      HunksShape(c, hunks[1..], k - |first|);
    } else if k == 0 {
      HunkHeaderShape(hunks[0].ranges);
    } else {
      assert l == HunkLineOf(c, hunks[0].lines[k - 1]);
    }
  }

  lemma BinaryTextShape(l: BinaryLine)
    requires l.Data? ==> ' ' !in l.encoded
    ensures !IsDiff(BinaryLineText(l)) && !IsHunk(BinaryLineText(l))
  {
    var t := BinaryLineText(l);
    assert "diff --git"[4] == ' ' && "@@ "[2] == ' ' && "diff --git"[0] == 'd' && "diff --git"[1] == 'i' && "@@ "[0] == '@';
    match l {
      case Literal(_) => assert t[0] == 'l';
      case Delta(_) => assert t[0] == 'd' && t[1] == 'e';
      case Data(_) =>
      case BlankLine => assert t[0] == '\n';
    }
  }

  lemma MarkerShape(c: Change)
    requires c.content.BinaryPatch? || c.content.BinaryDiffer?
    ensures ContentLines(c) != [] && ContentLines(c)[0].kind == MarkerKind(c)
    ensures var t := ContentLines(c)[0].text; IsBinaryMarker(t) && !IsHunk(t) && !IsDiff(t)
  {
    var t := ContentLines(c)[0].text;
    assert "diff --git"[0] == 'd' && "@@ "[0] == '@';
    if c.content.BinaryPatch? {
      assert t[0] == 'G';
    } else {
      assert t[0] == 'B' && t[..12] == "Binary files";
    }
  }

  lemma BinaryShape(c: Change, k: nat)
    requires ValidChange(c) && (c.content.BinaryPatch? || c.content.BinaryDiffer?)
    requires k < |ContentLines(c)|
    ensures !IsHunk(ContentLines(c)[k].text) && !IsDiff(ContentLines(c)[k].text)
    ensures k > 0 ==> ContentLines(c)[k].kind == Meta
  {
    hide IsHunk, IsDiff, BinaryLineText;
    MarkerShape(c);
    if k > 0 {
      var l := c.content.data[k - 1];
      assert ContentLines(c)[k] == Line(BinaryLineText(l), Meta);
      assert l in c.content.data;
      BinaryTextShape(l);
    }
  }

  // ----- What the checker makes of one printed change

  /** The lines d stand in the diff from position base on. */
  ghost predicate PrintedAt(lines: seq<string>, base: nat, d: seq<Line>) {
    base + |d| <= |lines| && forall j :: 0 <= j < |d| ==> d[j].text == lines[base + j]
  }

  /** Line i plays the part it was printed for. */
  ghost predicate PlaysPart(env: Env, lines: seq<string>, i: nat, kind: Kind)
    requires i < |lines|
  {
    match kind
    case Meta => RoleOf(env, lines, i) == Plain
    case Dissimilarity => RoleOf(env, lines, i) == Malformed
    case BinaryMarker(added) =>
      && RoleOf(env, lines, i) == Binary
      && SectionOf(lines, i).Preamble?
      && var h := SectionOf(lines, i).header;
         added == if IsNewFile(lines, h, i) then Some(FileName(lines[h])) else None
    case Plus(file, crlf) =>
      && RoleOf(env, lines, i) == Added
      && var s := SectionOf(lines, i);
         file == FileName(lines[s.header]) && crlf == CrlfAt(lines, s.header, s.opener)
  }

  /** The section of a line, from where its file's header and first opener stand. */
  lemma SectionBetween(lines: seq<string>, h: nat, o: nat, i: nat)
    requires h < i <= |lines| && h < o
    requires IsDiff(lines[h]) && forall k :: h < k < i ==> !IsDiff(lines[k])
    requires forall k :: h < k < o && k < i ==> !IsOpener(lines[k])
    requires o < i ==> IsOpener(lines[o])
    ensures SectionOf(lines, i) == if i <= o then Preamble(h) else Body(h, o)
  {
    hide IsDiff, IsOpener, Header, FirstOpener;
    assert Header(lines, i) == h;
    var f := FirstOpener(lines, h + 1, i);
    if o < i {
      assert f == o;
    } else {
      assert f == i;
    }
  }

  /** Position of the first content line of a change printed at base. */
  function ContentStart(base: nat, c: Change): nat {
    base + 1 + |PreambleLines(c)|
  }

  lemma PrintedParts(lines: seq<string>, base: nat, c: Change)
    requires PrintedAt(lines, base, ChangeLines(c))
    ensures lines[base] == DiffHeader(c.before, c.after, c.eol)
    ensures PrintedAt(lines, base + 1, PreambleLines(c))
    ensures PrintedAt(lines, ContentStart(base, c), ContentLines(c))
  {
    hide PreambleLines, ContentLines, DiffHeader;
    var d, p := ChangeLines(c), PreambleLines(c);
    assert d[0].text == DiffHeader(c.before, c.after, c.eol);
    forall j | 0 <= j < |p| ensures p[j].text == lines[base + 1 + j] {
      assert d[1 + j] == p[j];
    }
    var q := ContentLines(c);
    forall j | 0 <= j < |q| ensures q[j].text == lines[ContentStart(base, c) + j] {
      assert d[1 + |p| + j] == q[j];
    }
  }

  lemma ContentShape(c: Change, k: nat)
    requires ValidChange(c) && k < |ContentLines(c)|
    ensures !IsDiff(ContentLines(c)[k].text)
    ensures k == 0 ==> IsOpener(ContentLines(c)[k].text)
  {
    hide IsDiff, IsHunk, IsBinaryMarker, HunkLineText;
    match c.content {
      case Text(_, _, hunks) =>
        HunksShape(c, hunks, k);
        var l := ContentLines(c)[k];
        if !(IsHunk(l.text) && !IsDiff(l.text) && l.kind == Meta) {
          var h :| l == HunkLineOf(c, h);
          HunkLineShape(h);
        }
      case BinaryPatch(_) => BinaryShape(c, k); MarkerShape(c);
      case BinaryDiffer(_) => BinaryShape(c, k); MarkerShape(c);
    }
  }

  /** Sections within a printed change. */
  lemma PrintedSection(lines: seq<string>, base: nat, c: Change, i: nat)
    requires ValidChange(c) && PrintedAt(lines, base, ChangeLines(c))
    requires base < i < base + |ChangeLines(c)|
    ensures SectionOf(lines, i)
            == if i <= ContentStart(base, c) then Preamble(base) else Body(base, ContentStart(base, c))
  {
    hide PreambleLines, ContentLines, DiffHeader, IsDiff, IsOpener, SectionOf;
    PrintedParts(lines, base, c);
    FileNameOfHeaderIff(c.before, c.after, c.eol);
    var o := ContentStart(base, c);
    forall k | base < k < i ensures !IsDiff(lines[k]) && (k < o ==> !IsOpener(lines[k])) && (k == o ==> IsOpener(lines[k])) {
      if k < o {
        PreambleShape(c, k - base - 1);
        assert lines[k] == PreambleLines(c)[k - base - 1].text;
      } else {
        ContentShape(c, k - o);
        assert lines[k] == ContentLines(c)[k - o].text;
      }
    }
    SectionBetween(lines, base, o, i);
  }

  lemma HeaderPlaysPart(env: Env, lines: seq<string>, base: nat, c: Change)
    requires PrintedAt(lines, base, ChangeLines(c))
    ensures PlaysPart(env, lines, base, Meta)
  {
    hide PreambleLines, ContentLines, DiffHeader, IsDiff, SectionOf;
    PrintedParts(lines, base, c);
    FileNameOfHeaderIff(c.before, c.after, c.eol);
  }

  lemma PreambleLinePlaysPart(env: Env, lines: seq<string>, i: nat, l: Line)
    requires i < |lines| && lines[i] == l.text && IsPreambleLine(l) && SectionOf(lines, i).Preamble?
    ensures PlaysPart(env, lines, i, l.kind)
  {
    hide IsDiff, IsHunk, IsBinaryMarker, IsSubmodule, IsExtendedHeader, SectionOf;
  }

  lemma PreamblePlaysPart(env: Env, lines: seq<string>, base: nat, c: Change, k: nat)
    requires ValidChange(c) && PrintedAt(lines, base, ChangeLines(c)) && k < |PreambleLines(c)|
    ensures PlaysPart(env, lines, base + 1 + k, PreambleLines(c)[k].kind)
  {
    hide PreambleLines, ContentLines, SectionOf, PlaysPart, IsPreambleLine, IsSubmodule, IsNewFileIndex, IsNew, DiffHeader;
    PrintedParts(lines, base, c);
    PrintedSection(lines, base, c, base + 1 + k);
    PreambleShape(c, k);
    PreambleLinePlaysPart(env, lines, base + 1 + k, PreambleLines(c)[k]);
  }

  /** The preamble of a change declares a submodule exactly if the change adds one. */
  lemma PrintedSubmodule(lines: seq<string>, base: nat, c: Change)
    requires ValidChange(c) && PrintedAt(lines, base, ChangeLines(c))
    ensures DeclaresSubmodule(lines, base, ContentStart(base, c)) <==> AddsSubmodule(c)
  {
    hide ContentLines, IsSubmodule, IsSubmoduleHeader, HeaderText;
    PrintedParts(lines, base, c);
    var o := ContentStart(base, c);
    forall k | base < k < o
      ensures IsSubmodule(lines[k]) <==> k - base - 1 < |c.headers| && IsSubmoduleHeader(c.headers[k - base - 1])
    {
      PreambleShape(c, k - base - 1);
      assert lines[k] == PreambleLines(c)[k - base - 1].text;
    }
    if AddsSubmodule(c) {
      var k :| 0 <= k < |c.headers| && IsSubmoduleHeader(c.headers[k]);
      assert IsSubmodule(lines[base + 1 + k]);
    }
  }

  /** For a binary file, the preamble ends with the index line of a new file exactly if the file is new. */
  lemma PrintedNewFile(lines: seq<string>, base: nat, c: Change)
    requires ValidChange(c) && PrintedAt(lines, base, ChangeLines(c)) && !c.content.Text?
    ensures IsNewFile(lines, base, ContentStart(base, c)) <==> IsNew(c)
  {
    hide ContentLines, IsSubmodule, IsSubmoduleHeader, IsNewFileIndex, HeaderText;
    PrintedParts(lines, base, c);
    var o, n := ContentStart(base, c), |c.headers|;
    forall k | base < k < o
      ensures IsNewFileIndex(lines[k]) <==> k == base + 1 + n && IsNew(c)
      ensures k == base + 1 + n ==> !IsSubmodule(lines[k])
    {
      PreambleShape(c, k - base - 1);
      assert lines[k] == PreambleLines(c)[k - base - 1].text;
    }
    if IsNew(c) {
      assert o == base + 2 + n;
      assert IsNewFileIndex(lines[base + 1 + n]);
    }
  }

  lemma MarkerPlaysPart(env: Env, lines: seq<string>, base: nat, c: Change)
    requires ValidChange(c) && PrintedAt(lines, base, ChangeLines(c))
    requires c.content.BinaryPatch? || c.content.BinaryDiffer?
    ensures PlaysPart(env, lines, ContentStart(base, c), MarkerKind(c))
  {
    hide PreambleLines, ContentLines, IsDiff, IsHunk, IsBinaryMarker, SectionOf, IsNewFile, FileName, DiffHeader, IsNew;
    PrintedParts(lines, base, c);
    MarkerShape(c);
    var o := ContentStart(base, c);
    assert lines[o] == ContentLines(c)[0].text;
    PrintedSection(lines, base, c, o);
    PrintedNewFile(lines, base, c);
    FileNameOfHeaderIff(c.before, c.after, c.eol);
  }

  lemma BinaryPlaysPart(env: Env, lines: seq<string>, base: nat, c: Change, k: nat)
    requires ValidChange(c) && PrintedAt(lines, base, ChangeLines(c)) && 0 < k < |ContentLines(c)|
    requires c.content.BinaryPatch? || c.content.BinaryDiffer?
    ensures PlaysPart(env, lines, ContentStart(base, c) + k, ContentLines(c)[k].kind)
  {
    hide PreambleLines, ContentLines, IsDiff, IsHunk, SectionOf;
    PrintedParts(lines, base, c);
    var o := ContentStart(base, c);
    var i := o + k;
    PrintedSection(lines, base, c, i);
    forall m | o <= m <= i ensures !IsHunk(lines[m]) && !IsDiff(lines[m]) {
      BinaryShape(c, m - o);
      assert lines[m] == ContentLines(c)[m - o].text;
    }
    BinaryShape(c, k);
    assert InBinary(lines, o, i);
  }

  /** A line of a text hunk, its section being known. */
  lemma HunkPartPlaysPart(env: Env, lines: seq<string>, i: nat, c: Change, l: Line)
    requires i < |lines| && lines[i] == l.text && IsHunkPart(c, l)
    requires SectionOf(lines, i).Body? && IsHunk(lines[SectionOf(lines, i).opener])
    requires var s := SectionOf(lines, i);
             && FileName(lines[s.header]) == JudgedName(c)
             && (DeclaresSubmodule(lines, s.header, s.opener) <==> AddsSubmodule(c))
    ensures PlaysPart(env, lines, i, l.kind)
  {
    hide IsDiff, IsHunk, SectionOf, FileName, JudgedName, EnforcesCrlf, DeclaresSubmodule, AddsSubmodule, IsTrailer, HunkLineText;
    var s := SectionOf(lines, i);
    assert !InBinary(lines, s.opener, i);
    if !(IsHunk(l.text) && !IsDiff(l.text) && l.kind == Meta) {
      var h :| l == HunkLineOf(c, h);
      HunkLineShape(h);
    }
  }

  lemma TextPlaysPart(env: Env, lines: seq<string>, base: nat, c: Change, k: nat)
    requires ValidChange(c) && PrintedAt(lines, base, ChangeLines(c)) && c.content.Text? && k < |ContentLines(c)|
    ensures PlaysPart(env, lines, ContentStart(base, c) + k, ContentLines(c)[k].kind)
  {
    hide PreambleLines, HunksLines, IsDiff, IsHunk, SectionOf, FileName, DiffHeader, IsHunkPart, PlaysPart;
    PrintedParts(lines, base, c);
    var o, l := ContentStart(base, c), ContentLines(c)[k];
    assert lines[o] == ContentLines(c)[0].text && lines[o + k] == l.text;
    HunksShape(c, c.content.hunks, 0);
    HunksShape(c, c.content.hunks, k);
    PrintedSection(lines, base, c, o + k);
    if k == 0 {
      OpeningHunkPlaysPart(env, lines, o, l.kind);
    } else {
      FileNameOfHeaderIff(c.before, c.after, c.eol);
      PrintedSubmodule(lines, base, c);
      HunkPartPlaysPart(env, lines, o + k, c, l);
    }
  }

  lemma OpeningHunkPlaysPart(env: Env, lines: seq<string>, i: nat, kind: Kind)
    requires i < |lines| && IsHunk(lines[i]) && SectionOf(lines, i).Preamble? && kind == Meta
    ensures PlaysPart(env, lines, i, kind)
  {
    hide SectionOf, IsDiff, IsHunk;
  }

  /** Every line of a printed change plays the part it was printed for, whatever precedes or follows. */
  lemma ChangePlaysPart(env: Env, lines: seq<string>, base: nat, c: Change, j: nat)
    requires ValidChange(c) && PrintedAt(lines, base, ChangeLines(c)) && j < |ChangeLines(c)|
    ensures PlaysPart(env, lines, base + j, ChangeLines(c)[j].kind)
  {
    hide PreambleLines, ContentLines, PlaysPart, DiffHeader;
    var p := |PreambleLines(c)|;
    if j == 0 {
      HeaderPlaysPart(env, lines, base, c);
    } else if j <= p {
      PreamblePlaysPart(env, lines, base, c, j - 1);
      assert ChangeLines(c)[j] == PreambleLines(c)[j - 1];
    } else {
      var k := j - p - 1;
      assert ChangeLines(c)[j] == ContentLines(c)[k];
      ContentPlaysPart(env, lines, base, c, k);
    }
  }

  lemma ContentPlaysPart(env: Env, lines: seq<string>, base: nat, c: Change, k: nat)
    requires ValidChange(c) && PrintedAt(lines, base, ChangeLines(c)) && k < |ContentLines(c)|
    ensures PlaysPart(env, lines, ContentStart(base, c) + k, ContentLines(c)[k].kind)
  {
    hide PreambleLines, PlaysPart, HunksLines;
    if c.content.Text? {
      TextPlaysPart(env, lines, base, c, k);
    } else if k == 0 {
      MarkerShape(c);
      MarkerPlaysPart(env, lines, base, c);
    } else {
      BinaryPlaysPart(env, lines, base, c, k);
    }
  }

  ghost predicate ValidChanges(changes: seq<Change>) {
    forall c :: c in changes ==> ValidChange(c)
  }

  lemma {:induction false} DiffPlaysPart(env: Env, lines: seq<string>, base: nat, changes: seq<Change>, i: nat)
    requires ValidChanges(changes) && PrintedAt(lines, base, DiffLines(changes)) && i < |DiffLines(changes)|
    ensures PlaysPart(env, lines, base + i, DiffLines(changes)[i].kind)
    decreases |changes|
  {
    hide ChangeLines, PlaysPart, ValidChange;
    var d, first, rest := DiffLines(changes), ChangeLines(changes[0]), DiffLines(changes[1..]);
    assert changes[0] in changes && forall c :: c in changes[1..] ==> c in changes;
    if i < |first| {
      assert PrintedAt(lines, base, first) by {
        forall j | 0 <= j < |first| ensures first[j].text == lines[base + j] { assert d[j] == first[j]; }
      }
      ChangePlaysPart(env, lines, base, changes[0], i);
    } else {
      assert PrintedAt(lines, base + |first|, rest) by {
        forall j | 0 <= j < |rest| ensures rest[j].text == lines[base + |first| + j] { assert d[|first| + j] == rest[j]; }
      }
      DiffPlaysPart(env, lines, base + |first|, changes[1..], i - |first|);
    }
  }

  // ----- The printed parts, counted

  /** Positions of the lines printed as additions. */
  function PlusPositions(d: seq<Line>, n: nat): seq<nat>
    requires n <= |d|
  {
    if n == 0 then [] else PlusPositions(d, n - 1) + if d[n - 1].kind.Plus? then [n - 1] else []
  }

  /** Their texts, without the '+'. */
  function PlusTexts(d: seq<Line>): seq<string> {
    if d == [] then []
    else
      var l := d[|d| - 1];
      PlusTexts(d[..|d| - 1]) + if l.kind.Plus? && l.text != "" then [l.text[1..]] else []
  }

  /** The new binary file that a line reports. */
  function NewName(kind: Kind): seq<string> {
    if kind.BinaryMarker? && kind.added.Some? then [kind.added.value] else []
  }

  function MarkedNames(d: seq<Line>): seq<string> {
    if d == [] then [] else MarkedNames(d[..|d| - 1]) + NewName(d[|d| - 1].kind)
  }

  lemma OneLine(l: Line)
    ensures PlusTexts([l]) == if l.kind.Plus? && l.text != "" then [l.text[1..]] else []
    ensures MarkedNames([l]) == NewName(l.kind)
  {
    assert [l][..0] == [];
    assert MarkedNames([]) == [] && PlusTexts([]) == [];
  }

  /** The diff begins with the lines d, and each plays its part. */
  ghost predicate AllPlayPart(env: Env, lines: seq<string>, d: seq<Line>) {
    PrintedAt(lines, 0, d) && forall i :: 0 <= i < |d| ==> PlaysPart(env, lines, i, d[i].kind)
  }

  /** One line more, printed for this purpose. */
  lemma ResultsOfPart(env: Env, lines: seq<string>, i: nat, kind: Kind)
    requires i < |lines| && PlaysPart(env, lines, i, kind)
    ensures AddedLines(env, lines, i + 1) == AddedLines(env, lines, i) + if kind.Plus? then [i] else []
    ensures NewBinaries(env, lines, i + 1) == NewBinaries(env, lines, i) + NewName(kind)
  {
    hide RoleOf, SectionOf, IsNewFile, FileName, CrlfAt, AddedLines, NewBinaries, AllOk;
    ResultsStep(env, lines, i);
  }

  lemma {:induction false} PrintedResults(env: Env, lines: seq<string>, d: seq<Line>, n: nat)
    requires AllPlayPart(env, lines, d) && n <= |d|
    ensures AddedLines(env, lines, n) == PlusPositions(d, n)
    ensures NewBinaries(env, lines, n) == MarkedNames(d[..n])
    decreases n
  {
    if n > 0 {
      hide PlaysPart, AddedLines, NewBinaries;
      PrintedResults(env, lines, d, n - 1);
      ResultsOfPart(env, lines, n - 1, d[n - 1].kind);
      assert d[..n][..n - 1] == d[..n - 1];
    }
  }

  lemma PlusTextsConcat(a: seq<Line>, b: seq<Line>)
    ensures PlusTexts(a + b) == PlusTexts(a) + PlusTexts(b)
    ensures MarkedNames(a + b) == MarkedNames(a) + MarkedNames(b)
  {
    PlusTextsOfBoth(a, b);
    MarkedNamesOfBoth(a, b);
  }

  lemma {:induction false} PlusTextsOfBoth(a: seq<Line>, b: seq<Line>)
    ensures PlusTexts(a + b) == PlusTexts(a) + PlusTexts(b)
    decreases |b|
  {
    if b == [] {
      assert a + b == a;
    } else {
      assert (a + b)[..|a + b| - 1] == a + b[..|b| - 1];
      PlusTextsOfBoth(a, b[..|b| - 1]);
    }
  }

  lemma {:induction false} MarkedNamesOfBoth(a: seq<Line>, b: seq<Line>)
    ensures MarkedNames(a + b) == MarkedNames(a) + MarkedNames(b)
    decreases |b|
  {
    hide NewName;
    if b == [] {
      assert a + b == a;
    } else {
      assert (a + b)[..|a + b| - 1] == a + b[..|b| - 1];
      MarkedNamesOfBoth(a, b[..|b| - 1]);
    }
  }

  lemma {:induction false} NothingInMeta(d: seq<Line>)
    requires forall l :: l in d ==> !l.kind.Plus? && !l.kind.BinaryMarker?
    ensures PlusTexts(d) == [] && MarkedNames(d) == []
    decreases |d|
  {
    if d != [] {
      assert d[|d| - 1] in d;
      NothingInMeta(d[..|d| - 1]);
    }
  }

  // ----- The same, told by the changes

  function InsertedIn(lines: seq<HunkLine>): seq<string> {
    if lines == [] then []
    else
      InsertedIn(lines[..|lines| - 1])
      + match lines[|lines| - 1]
        case Inserted(text) => [text]
        case _ => []
  }

  function InsertedInHunks(hunks: seq<Hunk>): seq<string> {
    if hunks == [] then [] else InsertedIn(hunks[0].lines) + InsertedInHunks(hunks[1..])
  }

  predicate IsLookedInto(c: Change) {
    c.content.Text? && !EndsWith(JudgedName(c), ".rtf")
  }

  /** The texts inserted by the changes, in order; those of *.rtf files do not count. */
  function InsertedTexts(changes: seq<Change>): seq<string> {
    if changes == [] then []
    else
      (if IsLookedInto(changes[0]) then InsertedInHunks(changes[0].content.hunks) else [])
      + InsertedTexts(changes[1..])
  }

  predicate IsBinary(c: Change) {
    c.content.BinaryPatch? || c.content.BinaryDiffer?
  }

  /** The binary files that the changes add, in order. */
  function AddedBinaries(changes: seq<Change>): seq<string> {
    if changes == [] then []
    else (if IsBinary(changes[0]) && IsNew(changes[0]) then [JudgedName(changes[0])] else []) + AddedBinaries(changes[1..])
  }

  ghost predicate NoDissimilarity(c: Change) {
    forall h :: h in c.headers ==> !h.DissimilarityIndex?
  }

  /** Every text the change inserts meets the policy that applies to it. */
  ghost predicate ChangeOk(env: Env, c: Change) {
    IsLookedInto(c) ==>
      forall text :: text in InsertedInHunks(c.content.hunks) ==>
        LineOk(env, JudgedName(c), EnforcesCrlf(JudgedName(c)) && !AddsSubmodule(c), text)
  }

  function PlusLine(c: Change, text: string): Line {
    Line("+" + text, Plus(JudgedName(c), EnforcesCrlf(JudgedName(c)) && !AddsSubmodule(c)))
  }

  /** Every line printed as an addition is one of these texts, with the policy of the change. */
  ghost predicate PlusLinesAre(c: Change, d: seq<Line>, texts: seq<string>) {
    && PlusTexts(d) == texts
    && MarkedNames(d) == []
    && (forall l :: l in d && l.kind.Plus? ==> exists t :: t in texts && l == PlusLine(c, t))
    && (forall t :: t in texts ==> PlusLine(c, t) in d)
  }

  lemma PlusLinesConcat(c: Change, a: seq<Line>, s: seq<string>, b: seq<Line>, t: seq<string>)
    requires PlusLinesAre(c, a, s) && PlusLinesAre(c, b, t)
    ensures PlusLinesAre(c, a + b, s + t)
  {
    hide PlusLine, PlusTexts, MarkedNames;
    PlusTextsConcat(a, b);
    forall l | l in a + b && l.kind.Plus? ensures exists x :: x in s + t && l == PlusLine(c, x) {
      if l in a {
        var x :| x in s && l == PlusLine(c, x);
        assert x in s + t;
      } else {
        var x :| x in t && l == PlusLine(c, x);
        assert x in s + t;
      }
    }
  }

  lemma PlusLinesOfMeta(c: Change, d: seq<Line>)
    requires forall l :: l in d ==> !l.kind.Plus? && !l.kind.BinaryMarker?
    ensures PlusLinesAre(c, d, [])
  {
    NothingInMeta(d);
  }

  lemma PlusLineOfHunkLine(c: Change, l: HunkLine)
    requires !EndsWith(JudgedName(c), ".rtf")
    ensures PlusLinesAre(c, [HunkLineOf(c, l)], if l.Inserted? then [l.text] else [])
  {
    hide JudgedName, EnforcesCrlf, AddsSubmodule, PlusLinesAre;
    if l.Inserted? {
      assert HunkLineOf(c, l) == PlusLine(c, l.text);
      SinglePlusLine(c, l.text);
    } else {
      PlusLinesOfMeta(c, [HunkLineOf(c, l)]);
    }
  }

  lemma SinglePlusLine(c: Change, text: string)
    ensures PlusLinesAre(c, [PlusLine(c, text)], [text])
  {
    hide JudgedName, EnforcesCrlf, AddsSubmodule, PlusTexts, MarkedNames;
    var line, texts := PlusLine(c, text), [text];
    OneLine(line);
    assert line.text[1..] == text;
    assert text in texts && line in [line];
    forall l | l in [line] ensures exists t :: t in texts && l == PlusLine(c, t) {
      assert l == PlusLine(c, text);
    }
  }

  function LinesOf(c: Change, lines: seq<HunkLine>): seq<Line> {
    seq(|lines|, i requires 0 <= i < |lines| => HunkLineOf(c, lines[i]))
  }

  lemma {:induction false} PlusLinesOfLines(c: Change, lines: seq<HunkLine>)
    requires !EndsWith(JudgedName(c), ".rtf")
    ensures PlusLinesAre(c, LinesOf(c, lines), InsertedIn(lines))
    decreases |lines|
  {
    hide HunkLineOf, PlusLinesAre, JudgedName;
    if lines == [] {
      assert LinesOf(c, lines) == [];
      PlusLinesOfMeta(c, []);
    } else {
      var n := |lines| - 1;
      PlusLinesOfLines(c, lines[..n]);
      PlusLineOfHunkLine(c, lines[n]);
      PlusLinesConcat(c, LinesOf(c, lines[..n]), InsertedIn(lines[..n]), [HunkLineOf(c, lines[n])],
                      if lines[n].Inserted? then [lines[n].text] else []);
      assert LinesOf(c, lines) == LinesOf(c, lines[..n]) + [HunkLineOf(c, lines[n])];
    }
  }

  lemma {:induction false} PlusLinesOfHunks(c: Change, hunks: seq<Hunk>)
    requires !EndsWith(JudgedName(c), ".rtf")
    ensures PlusLinesAre(c, HunksLines(c, hunks), InsertedInHunks(hunks))
    decreases |hunks|
  {
    hide PlusLinesAre, HunkLineOf, JudgedName, InsertedIn;
    if hunks == [] {
      PlusLinesOfMeta(c, []);
    } else {
      var h, head := hunks[0], [Line("@@ " + hunks[0].ranges, Meta)];
      PlusLinesOfMeta(c, head);
      PlusLinesOfLines(c, h.lines);
      PlusLinesConcat(c, head, [], LinesOf(c, h.lines), InsertedIn(h.lines));
      assert [] + InsertedIn(h.lines) == InsertedIn(h.lines);
      assert HunkLines(c, h) == head + LinesOf(c, h.lines);
      PlusLinesOfHunks(c, hunks[1..]);
      PlusLinesConcat(c, HunkLines(c, h), InsertedIn(h.lines), HunksLines(c, hunks[1..]), InsertedInHunks(hunks[1..]));
    }
  }

  lemma {:induction false} NoPlusInRtf(c: Change, hunks: seq<Hunk>)
    requires EndsWith(JudgedName(c), ".rtf")
    ensures forall l :: l in HunksLines(c, hunks) ==> l.kind == Meta
    decreases |hunks|
  {
    hide JudgedName;
    if hunks != [] {
      NoPlusInRtf(c, hunks[1..]);
    }
  }

  /** The lines before the content hold no additions and no markers, and a dissimilarity if the change has one. */
  lemma LeadLines(c: Change)
    ensures var lead := [Line(DiffHeader(c.before, c.after, c.eol), Meta)] + PreambleLines(c);
            && ChangeLines(c) == lead + ContentLines(c)
            && (forall l :: l in lead ==> !l.kind.Plus? && !l.kind.BinaryMarker?)
            && ((exists l :: l in lead && l.kind == Dissimilarity) <==> !NoDissimilarity(c))
  {
    hide DiffHeader, ContentLines, HeaderText;
    var lead := [Line(DiffHeader(c.before, c.after, c.eol), Meta)] + PreambleLines(c);
    if !NoDissimilarity(c) {
      var h :| h in c.headers && h.DissimilarityIndex?;
      var k :| 0 <= k < |c.headers| && c.headers[k] == h;
      assert HeaderLines(c.headers)[k] == HeaderLine(h);
      assert lead[1 + k] == HeaderLine(h);
    }
    forall k | 0 <= k < |lead| && lead[k].kind == Dissimilarity ensures !NoDissimilarity(c) {
      assert lead[k] == HeaderLine(c.headers[k - 1]);
      assert c.headers[k - 1] in c.headers;
    }
  }

  function ExpectedTexts(c: Change): seq<string> {
    if IsLookedInto(c) then InsertedInHunks(c.content.hunks) else []
  }

  function ExpectedNames(c: Change): seq<string> {
    if IsBinary(c) && IsNew(c) then [JudgedName(c)] else []
  }

  /** What the content of a change holds. */
  lemma ContentParts(c: Change)
    ensures PlusTexts(ContentLines(c)) == ExpectedTexts(c)
    ensures MarkedNames(ContentLines(c)) == ExpectedNames(c)
    ensures forall l :: l in ContentLines(c) && l.kind.Plus? ==> exists t :: t in ExpectedTexts(c) && l == PlusLine(c, t)
    ensures forall t :: t in ExpectedTexts(c) ==> PlusLine(c, t) in ContentLines(c)
    ensures forall l :: l in ContentLines(c) ==> l.kind != Dissimilarity
  {
    hide JudgedName, PlusLine, IsNew, HunkLineOf, BinaryLineText, InsertedInHunks;
    match c.content {
      case Nothing =>
      case Text(_, _, hunks) =>
        NoDissimilarityInHunks(c, hunks);
        if EndsWith(JudgedName(c), ".rtf") {
          NoPlusInRtf(c, hunks);
          NothingInMeta(HunksLines(c, hunks));
        } else {
          PlusLinesOfHunks(c, hunks);
        }
      case BinaryPatch(_) => BinaryParts(c);
      case BinaryDiffer(_) => BinaryParts(c);
    }
  }

  lemma {:induction false} NoDissimilarityInHunks(c: Change, hunks: seq<Hunk>)
    ensures forall l :: l in HunksLines(c, hunks) ==> l.kind != Dissimilarity
    decreases |hunks|
  {
    hide JudgedName, EnforcesCrlf, AddsSubmodule;
    if hunks != [] {
      NoDissimilarityInHunks(c, hunks[1..]);
    }
  }

  lemma BinaryParts(c: Change)
    requires IsBinary(c)
    ensures PlusTexts(ContentLines(c)) == [] && MarkedNames(ContentLines(c)) == ExpectedNames(c)
    ensures forall l :: l in ContentLines(c) ==> !l.kind.Plus? && l.kind != Dissimilarity
  {
    hide JudgedName, IsNew, BinaryLineText, PlusTexts, MarkedNames;
    var d := ContentLines(c);
    assert d == [d[0]] + d[1..];
    NothingInMeta(d[1..]);
    PlusTextsConcat([d[0]], d[1..]);
    OneLine(d[0]);
  }

  // ----- The law

  ghost predicate NoneDissimilar(changes: seq<Change>) {
    forall c :: c in changes ==> NoDissimilarity(c)
  }

  ghost predicate LinesOk(env: Env, d: seq<Line>) {
    forall l :: l in d && l.kind.Plus? ==> l.text != "" && LineOk(env, l.kind.file, l.kind.crlf, l.text[1..])
  }

  ghost predicate HasDissimilarity(d: seq<Line>) {
    exists l :: l in d && l.kind == Dissimilarity
  }

  lemma ChangeParts(env: Env, c: Change)
    ensures PlusTexts(ChangeLines(c)) == ExpectedTexts(c)
    ensures MarkedNames(ChangeLines(c)) == ExpectedNames(c)
    ensures LinesOk(env, ChangeLines(c)) <==> ChangeOk(env, c)
    ensures HasDissimilarity(ChangeLines(c)) <==> !NoDissimilarity(c)
  {
    hide ContentLines, PreambleLines, DiffHeader, PlusTexts, MarkedNames, NoDissimilarity, LineOk, JudgedName, InsertedInHunks;
    var lead := [Line(DiffHeader(c.before, c.after, c.eol), Meta)] + PreambleLines(c);
    LeadLines(c);
    ContentParts(c);
    NothingInMeta(lead);
    PlusTextsConcat(lead, ContentLines(c));
    assert [] + ExpectedTexts(c) == ExpectedTexts(c) && [] + ExpectedNames(c) == ExpectedNames(c);
    forall t: string ensures PlusLine(c, t).text[1..] == t {
    }
    if LinesOk(env, ChangeLines(c)) {
      forall t | t in ExpectedTexts(c)
        ensures LineOk(env, JudgedName(c), EnforcesCrlf(JudgedName(c)) && !AddsSubmodule(c), t)
      {
        assert PlusLine(c, t) in ChangeLines(c);
      }
    }
  }

  lemma LinesConcat(env: Env, a: seq<Line>, b: seq<Line>)
    ensures LinesOk(env, a + b) <==> LinesOk(env, a) && LinesOk(env, b)
    ensures HasDissimilarity(a + b) <==> HasDissimilarity(a) || HasDissimilarity(b)
  {
    hide LineOk;
  }

  lemma {:induction false} DiffParts(env: Env, changes: seq<Change>)
    ensures PlusTexts(DiffLines(changes)) == InsertedTexts(changes)
    ensures MarkedNames(DiffLines(changes)) == AddedBinaries(changes)
    ensures LinesOk(env, DiffLines(changes)) <==> forall c :: c in changes ==> ChangeOk(env, c)
    ensures HasDissimilarity(DiffLines(changes)) <==> !NoneDissimilar(changes)
    decreases |changes|
  {
    hide ChangeLines, ChangeOk, NoDissimilarity, LineOk, JudgedName, InsertedInHunks, IsNew, PlusTexts, MarkedNames;
    if changes == [] {
      NothingInMeta([]);
    } else {
      hide LinesOk, HasDissimilarity;
      var c, rest := changes[0], changes[1..];
      assert changes == [c] + rest;
      ChangeParts(env, c);
      DiffParts(env, rest);
      PlusTextsConcat(ChangeLines(c), DiffLines(rest));
      LinesConcat(env, ChangeLines(c), DiffLines(rest));
    }
  }

  lemma PrintedPlayPart(env: Env, lines: seq<string>, changes: seq<Change>)
    requires ValidChanges(changes) && PrintedAt(lines, 0, DiffLines(changes))
    ensures AllPlayPart(env, lines, DiffLines(changes))
  {
    hide PlaysPart, DiffLines;
    var d := DiffLines(changes);
    forall i | 0 <= i < |d| ensures PlaysPart(env, lines, i, d[i].kind) {
      DiffPlaysPart(env, lines, 0, changes, i);
    }
  }

  /** Within the printed lines, the checker stops at the first dissimilarity, and only there. */
  lemma PrintedStop(env: Env, lines: seq<string>, d: seq<Line>)
    requires AllPlayPart(env, lines, d)
    ensures var s := Stop(env, lines);
            s < |d| ==> d[s].kind == Dissimilarity && RoleOf(env, lines, s) == Malformed
    ensures Stop(env, lines) >= |d| <==> !HasDissimilarity(d)
  {
    hide RoleOf, SectionOf, IsNewFile, FileName, CrlfAt;
    var s := Stop(env, lines);
    if s < |d| {
      assert Stops(env, lines, s) && PlaysPart(env, lines, s, d[s].kind);
    }
    forall i | 0 <= i < |d| && d[i].kind == Dissimilarity ensures Stops(env, lines, i) {
      assert PlaysPart(env, lines, i, d[i].kind);
    }
  }

  lemma PrintedAllOk(env: Env, lines: seq<string>, d: seq<Line>)
    requires AllPlayPart(env, lines, d)
    requires forall l :: l in d && l.kind.Plus? ==> l.text != ""
    ensures AllOk(env, lines, |d|) <==> LinesOk(env, d)
  {
    hide RoleOf, SectionOf, IsNewFile, FileName, CrlfAt, LineOk;
    forall i | 0 <= i < |d|
      ensures RoleOf(env, lines, i) == Added <==> d[i].kind.Plus?
      ensures d[i].kind.Plus? ==>
                (AddedLineOk(env, lines, i) <==> LineOk(env, d[i].kind.file, d[i].kind.crlf, d[i].text[1..]))
    {
      assert PlaysPart(env, lines, i, d[i].kind) && d[i] in d && d[i].text == lines[0 + i];
    }
    if AllOk(env, lines, |d|) {
      forall i | 0 <= i < |d| && d[i].kind.Plus?
        ensures LineOk(env, d[i].kind.file, d[i].kind.crlf, d[i].text[1..])
      {
        assert AddedLineOk(env, lines, i);
      }
    }
  }

  lemma {:induction false} PlusIsNotEmpty(changes: seq<Change>)
    ensures forall l :: l in DiffLines(changes) && l.kind.Plus? ==> l.text != ""
    decreases |changes|
  {
    hide ContentLines, PreambleLines, DiffHeader, ExpectedTexts;
    if changes != [] {
      PlusIsNotEmpty(changes[1..]);
      LeadLines(changes[0]);
      ContentParts(changes[0]);
    }
  }

  /**
   The checker on what git prints for any list of changes. It reads the diff to its end, takes
   exactly the inserted lines to be added and exactly the new binary files to be new, and passes
   the diff iff every inserted text meets its policy, if and only if no change carries a
   "dissimilarity index", the one extended header it does not know. With one, it is an error.
   */
  lemma PrintedDiffIff(env: Env, changes: seq<Change>)
    requires ValidChanges(changes)
    ensures var d := DiffLines(changes);
            var lines := Texts(d);
            && (Stop(env, lines) == |lines| <==> NoneDissimilar(changes))
            && (WellFormed(env, lines) <==> NoneDissimilar(changes))
            && AddedLines(env, lines, |lines|) == PlusPositions(d, |d|)
            && PlusTexts(d) == InsertedTexts(changes)
            && NewBinaries(env, lines, |lines|) == AddedBinaries(changes)
            && (DiffOk(env, lines) <==>
                NoneDissimilar(changes) && forall c :: c in changes ==> ChangeOk(env, c))
  {
    hide DiffLines, InsertedTexts, AddedBinaries, NoneDissimilar, RoleOf, AddedLines, NewBinaries, AllOk;
    hide PlusTexts, MarkedNames, PlusPositions, ChangeOk, AllPlayPart;
    var d := DiffLines(changes);
    var lines := Texts(d);
    PrintedPlayPart(env, lines, changes);
    PrintedResults(env, lines, d, |d|);
    assert d[..|d|] == d;
    DiffParts(env, changes);
    PrintedStop(env, lines, d);
    PlusIsNotEmpty(changes);
    PrintedAllOk(env, lines, d);
  }

  // ----- A mail signature behind the diff

  lemma {:induction false} DiffLinesAppend(changes: seq<Change>, last: Change)
    ensures DiffLines(changes + [last]) == DiffLines(changes) + ChangeLines(last)
    decreases |changes|
  {
    hide ChangeLines;
    if changes == [] {
      assert changes + [last] == [last] && [last][1..] == [];
    } else {
      assert (changes + [last])[1..] == changes[1..] + [last];
      DiffLinesAppend(changes[1..], last);
    }
  }

  /** A version number or the like: no hunk line, no header, no further diff. */
  ghost predicate IsVersion(s: string) {
    s != "" && s[0] !in {' ', '-', '+', '\\', '\r', '@', 'd'}
  }

  /** Behind the last hunk of a text file, "-- " reads as a removed line and the version as the end. */
  lemma SignatureRoles(env: Env, lines: seq<string>, base: nat, last: Change)
    requires ValidChange(last) && last.content.Text? && last.content.hunks != []
    requires PrintedAt(lines, base, ChangeLines(last)) && base + |ChangeLines(last)| + 2 == |lines|
    requires lines[|lines| - 2] == "-- \n" && IsVersion(lines[|lines| - 1])
    ensures RoleOf(env, lines, |lines| - 2) == Plain
    ensures RoleOf(env, lines, |lines| - 1) == Trailer
  {
    hide PreambleLines, HunksLines, SectionOf, FileName, IsRtf;
    var n, o := |lines| - 2, ContentStart(base, last);
    PrintedParts(lines, base, last);
    HunksNotEmpty(last, last.content.hunks);
    HunksShape(last, last.content.hunks, 0);
    assert lines[o] == ContentLines(last)[0].text;
    PrintedSection(lines, base, last, n - 1);
    SectionStep(lines, n - 1);
    if n - 1 > o { ContentShape(last, n - 1 - o); } else { ContentShape(last, 0); }
    assert lines[n - 1] == ContentLines(last)[n - 1 - o].text;
    assert SectionOf(lines, n) == Body(base, o);
    assert "diff --git"[0] == 'd' && "@@ "[0] == '@' && "-- \n"[0] == '-';
    SectionStep(lines, n);
    assert !InBinary(lines, o, n) && !InBinary(lines, o, n + 1);
  }

  lemma HunksNotEmpty(c: Change, hunks: seq<Hunk>)
    requires hunks != []
    ensures HunksLines(c, hunks) != []
  {
  }

  /**
   A patch mail: the signature behind the diff ends the check where the mail does, and the
   results and the verdict are those of the diff.
   */
  lemma SignatureEndsPatch(env: Env, changes: seq<Change>, last: Change, version: string)
    requires ValidChanges(changes + [last]) && NoneDissimilar(changes + [last])
    requires last.content.Text? && last.content.hunks != [] && IsVersion(version)
    ensures var d := DiffLines(changes + [last]);
            var lines := Texts(d) + ["-- \n", version];
            && Stop(env, lines) == |d| + 1 && WellFormed(env, lines)
            && AddedLines(env, lines, |d| + 1) == PlusPositions(d, |d|)
            && NewBinaries(env, lines, |d| + 1) == AddedBinaries(changes + [last])
            && (DiffOk(env, lines) <==> forall c :: c in changes + [last] ==> ChangeOk(env, c))
  {
    hide DiffLines, ChangeLines, RoleOf, AddedLines, NewBinaries, AllOk, NoneDissimilar, AddedBinaries;
    hide PlusTexts, MarkedNames, PlusPositions, ChangeOk, AllPlayPart, ValidChange, InsertedTexts;
    var all := changes + [last];
    var d := DiffLines(all);
    var lines := Texts(d) + ["-- \n", version];
    assert PrintedAt(lines, 0, d);
    PrintedPlayPart(env, lines, all);
    PrintedResults(env, lines, d, |d|);
    assert d[..|d|] == d;
    DiffParts(env, all);
    PrintedStop(env, lines, d);
    PlusIsNotEmpty(all);
    PrintedAllOk(env, lines, d);
    DiffLinesAppend(changes, last);
    var base := |DiffLines(changes)|;
    assert last in all && PrintedAt(lines, base, ChangeLines(last)) by {
      forall j | 0 <= j < |ChangeLines(last)| ensures ChangeLines(last)[j].text == lines[base + j] {
        assert d[base + j] == ChangeLines(last)[j];
      }
    }
    SignatureRoles(env, lines, base, last);
    ResultsStep(env, lines, |d|);
    assert Stops(env, lines, |d| + 1) && !Stops(env, lines, |d|);
  }

  /** A rewritten file, as "git diff -B" shows it. */
  const REWRITE: Change :=
    Change("f.c", "f.c", "\n", [DissimilarityIndex("90%\n")], Some(Index("1a", "2b")),
           Text("a/f.c\n", "b/f.c\n", [Hunk("-1 +1 @@\n", [Removed("x\r\n"), Inserted("y\r\n")])]))

  /** Its only fault is a header of git's own. */
  lemma RewriteIsRejected(env: Env)
    ensures ValidChange(REWRITE)
    ensures !WellFormed(env, Texts(DiffLines([REWRITE]))) && !DiffOk(env, Texts(DiffLines([REWRITE])))
    ensures WellFormed(env, Texts(DiffLines([REWRITE.(headers := [])])))
  {
    hide WellFormed, DiffOk, DiffLines, Stop, ChangeOk, InsertedTexts, AddedBinaries, PlusTexts, PlusPositions, AddedLines, NewBinaries;
    var plain := REWRITE.(headers := []);
    assert ValidChanges([REWRITE]) && ValidChanges([plain]);
    assert REWRITE.headers[0] in REWRITE.headers && REWRITE in [REWRITE];
    PrintedDiffIff(env, [REWRITE]);
    PrintedDiffIff(env, [plain]);
  }
}
