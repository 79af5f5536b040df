/**
 The in-place rewriting of an INF file's lines in UpdateInfAsmFile (ConvertMasmToNasm.py):
 references to MASM sources become references to the NASM file, while lines are inserted and
 blanked out under the scan.
 */
module UpdateInf {
  import opened PyStrings
  import opened Wrappers

  // ----- Replacing a file name

  /** Replaces the pattern together with up to n following spaces, longest run first. */
  function ReplacePadded(s: string, find: string, replacement: string, n: nat): string
    requires find != ""
    decreases n
  {
    var once := Replace(s, find + Spaces(n), replacement);
    if n == 0 then once else ReplacePadded(once, find, replacement, n - 1)
  }

  /**
   ReplacePreserveSpacing: keeps what follows in its column. The source's middle branch, for
   a replacement contained in a shorter pattern, can not be taken.
   */
  function ReplacePreserveSpacing(s: string, find: string, replacement: string): string
    requires find != ""
  {
    if |find| >= |replacement| then Replace(s, find, replacement + Spaces(|find| - |replacement|))
    else ReplacePadded(s, find, replacement, |replacement| - |find|)
  }

  // ----- What happens to one line

  /** The sources (dstToSrc[dst]) that become `dst`, and which files the user keeps. */
  datatype Update = Update(sources: seq<string>, dst: string, shouldKeep: string -> bool, isSpace: char -> bool) {
    predicate Valid() {
      forall k :: 0 <= k < |sources| ==> sources[k] != ""
    }
  }

  datatype Rewrite = Rewrite(text: string, keepOld: bool)

  /** The first source from index k on whose replacement changes the line. */
  function RewriteFrom(u: Update, line: string, k: nat): Option<Rewrite>
    requires u.Valid() && k <= |u.sources|
    decreases |u.sources| - k
  {
    if k == |u.sources| then None
    else
      var updated := ReplacePreserveSpacing(line, u.sources[k], u.dst);
      if updated != line then Some(Rewrite(updated, u.shouldKeep(u.sources[k])))
      else RewriteFrom(u, line, k + 1)
  }

  /** How a line of the file is rewritten, if at all. */
  function RewriteOf(u: Update, raw: string): Option<Rewrite>
    requires u.Valid()
  {
    RewriteFrom(u, RStrip(u.isSpace, raw), 0)
  }

  /** The inner loop over the sources. */
  method RewriteLine(u: Update, raw: string) returns (updatedLine: string, lineChanged: bool, preserveOldSource: bool)
    requires u.Valid()
    ensures lineChanged <==> RewriteOf(u, raw).Some?
    ensures lineChanged ==> RewriteOf(u, raw) == Some(Rewrite(updatedLine, preserveOldSource))
  {
    var line := RStrip(u.isSpace, raw);
    updatedLine, lineChanged, preserveOldSource := line, false, false;
    var k := 0;
    while k < |u.sources|
      invariant 0 <= k <= |u.sources|
      invariant updatedLine == line && !lineChanged
      invariant RewriteOf(u, raw) == RewriteFrom(u, line, k)
    {
      updatedLine := ReplacePreserveSpacing(updatedLine, u.sources[k], u.dst);
      lineChanged := updatedLine != line;
      if lineChanged {
        preserveOldSource := u.shouldKeep(u.sources[k]);
        return;
      }
      k := k + 1;
    }
  }

  // ----- Which lines are rewritten

  lemma {:induction false} ContainsShorter(s: string, part: string, more: string)
    requires Contains(s, part + more)
    ensures Contains(s, part)
    decreases |s|
  {
    if part + more <= s {
      assert s[..|part|] == (part + more)[..|part|] == part;
    } else {
      ContainsShorter(s[1..], part, more);
    }
  }

  /** Replacing leaves a text alone that lacks the pattern, and otherwise makes it longer or different. */
  lemma {:induction false} ReplaceEffect(s: string, find: string, replacement: string)
    requires find != "" && |find| <= |replacement|
    ensures !Contains(s, find) ==> Replace(s, find, replacement) == s
    ensures |s| <= |Replace(s, find, replacement)|
    ensures Contains(s, find) && |find| < |replacement| ==> |s| < |Replace(s, find, replacement)|
    ensures Contains(s, find) && find != replacement ==> Replace(s, find, replacement) != s
    decreases |s|
  {
    if s != "" {
      if find <= s {
        ReplaceEffect(s[|find|..], find, replacement);
        var r := Replace(s, find, replacement);
        assert r[..|find|] == replacement[..|find|];
        if |find| == |replacement| {
          assert replacement[..|find|] == replacement;
          assert s[..|find|] == find;
        }
      } else {
        ReplaceEffect(s[1..], find, replacement);
        assert Replace(s, find, replacement)[1..] == Replace(s[1..], find, replacement);
      }
    } else {
      assert !Contains(s, find);
    }
  }

  /** The passes with shorter padding make any text longer that holds the pattern. */
  lemma {:induction false} PaddedGrows(s: string, find: string, replacement: string, n: nat)
    requires find != "" && |find| + n < |replacement|
    ensures !Contains(s, find) ==> ReplacePadded(s, find, replacement, n) == s
    ensures |s| <= |ReplacePadded(s, find, replacement, n)|
    ensures Contains(s, find) ==> |s| < |ReplacePadded(s, find, replacement, n)|
    decreases n
  {
    hide Replace, Contains;
    var padded := find + Spaces(n);
    ReplaceEffect(s, padded, replacement);
    if Contains(s, padded) {
      ContainsShorter(s, find, Spaces(n));
    }
    if n == 0 {
      assert padded == find;
    } else {
      PaddedGrows(Replace(s, padded, replacement), find, replacement, n - 1);
    }
  }

  /** The replacement is not just the pattern with another amount of padding. */
  predicate Differs(find: string, replacement: string) {
    && (|find| <= |replacement| ==> replacement != find + Spaces(|replacement| - |find|))
    && (|replacement| <= |find| ==> find != replacement + Spaces(|find| - |replacement|))
  }

  /** A line changes exactly when the name of the source occurs in it. */
  lemma ChangesIffMentioned(s: string, find: string, replacement: string)
    requires find != "" && Differs(find, replacement)
    ensures ReplacePreserveSpacing(s, find, replacement) != s <==> Contains(s, find)
  {
    hide Replace, Contains;
    if |find| >= |replacement| {
      ReplaceEffect(s, find, replacement + Spaces(|find| - |replacement|));
    } else {
      var n := |replacement| - |find|;
      var padded := find + Spaces(n);
      var once := Replace(s, padded, replacement);
      ReplaceEffect(s, padded, replacement);
      if Contains(s, padded) {
        ContainsShorter(s, find, Spaces(n));
      }
      PaddedGrows(once, find, replacement, n - 1);
    }
  }

  /** No occurrence of `find` in s starts among the first n characters. */
  ghost predicate NoneStartsBefore(s: string, n: nat, find: string)
    requires n <= |s|
  {
    forall i :: 0 <= i < n ==> !(find <= s[i..])
  }

  lemma {:induction false} ReplaceSkips(pre: string, t: string, find: string, replacement: string)
    requires find != "" && NoneStartsBefore(pre + t, |pre|, find)
    ensures Replace(pre + t, find, replacement) == pre + Replace(t, find, replacement)
    decreases |pre|
  {
    var s := pre + t;
    if pre == "" {
      assert s == t;
    } else {
      assert s[0..] == s;
      assert s[1..] == pre[1..] + t;
      forall i | 0 <= i < |pre| - 1 ensures !(find <= s[1..][i..]) {
        assert s[1..][i..] == s[i + 1..];
      }
      ReplaceSkips(pre[1..], t, find, replacement);
    }
  }

  /** Nor does one of a longer text that begins with it. */
  lemma NoneStartsLonger(s: string, n: nat, find: string, more: string)
    requires n <= |s| && NoneStartsBefore(s, n, find)
    ensures NoneStartsBefore(s, n, find + more)
  {
    forall i | 0 <= i < n && find + more <= s[i..] ensures find <= s[i..] {
      PrefixShorter(s[i..], find, more);
    }
  }

  lemma PrefixShorter(s: string, find: string, more: string)
    requires find + more <= s
    ensures find <= s
  {
    assert s[..|find|] == (find + more)[..|find|] == find;
  }

  lemma {:induction false} ContainsSuffix(a: string, b: string, part: string)
    requires Contains(b, part)
    ensures Contains(a + b, part)
    decreases |a|
  {
    if a == "" {
      assert a + b == b;
    } else {
      assert (a + b)[1..] == a[1..] + b;
      ContainsSuffix(a[1..], b, part);
    }
  }

  /** A name followed by fewer spaces than the pattern asks for is not matched. */
  lemma TooFewSpaces(find: string, j: nat, post: string, n: nat)
    requires find != "" && j < n && (post == "" || post[0] != ' ')
    requires !Contains((find + Spaces(j) + post)[1..], find)
    ensures !Contains(find + Spaces(j) + post, find + Spaces(n))
  {
    var s, padded := find + Spaces(j) + post, find + Spaces(n);
    assert padded[|find| + j] == ' ';
    assert |s| == |find| + j || s[|find| + j] != ' ';
    assert !(padded <= s);
    if Contains(s[1..], padded) {
      ContainsShorter(s[1..], find, Spaces(n));
    }
  }

  /**
   ReplacePreserveSpacing keeps columns: where the old name occurs once, the longer name takes
   its place and that of as many spaces behind it as it needs and finds.
   */
  lemma {:induction false} TakesFollowingSpaces(pre: string, find: string, replacement: string, j: nat, post: string, n: nat)
    requires find != "" && j <= n <= |replacement| - |find|
    requires NoneStartsBefore(pre + (find + Spaces(j) + post), |pre|, find)
    requires j == n || post == "" || post[0] != ' '
    requires !Contains((find + Spaces(j) + post)[1..], find)
    requires !Contains(pre + (replacement + post), find)
    ensures ReplacePadded(pre + (find + Spaces(j) + post), find, replacement, n) == pre + (replacement + post)
    decreases n
  {
    hide Replace, Contains, Spaces, NoneStartsBefore;
    var t, padded := find + Spaces(j) + post, find + Spaces(n);
    NoneStartsLonger(pre + t, |pre|, find, Spaces(n));
    ReplaceSkips(pre, t, padded, replacement);
    if j < n {
      TooFewSpaces(find, j, post, n);
      ReplaceEffect(t, padded, replacement);
      TakesFollowingSpaces(pre, find, replacement, j, post, n - 1);
    } else {
      ReplacesAtStart(find, j, post, replacement);
      if n > 0 {
        PaddedGrows(pre + (replacement + post), find, replacement, n - 1);
      }
    }
  }

  lemma ReplacesAtStart(find: string, j: nat, post: string, replacement: string)
    requires find != "" && |find| + j <= |replacement|
    requires !Contains((find + Spaces(j) + post)[1..], find)
    ensures Replace(find + Spaces(j) + post, find + Spaces(j), replacement) == replacement + post
  {
    var padded := find + Spaces(j);
    var s := padded + post;
    assert s[|padded|..] == post;
    assert s[1..] == padded[1..] + post;
    if Contains(post, padded) {
      ContainsShorter(post, find, Spaces(j));
      ContainsSuffix(padded[1..], post, find);
    }
    ReplaceEffect(post, padded, replacement);
  }

  lemma {:induction false} RewriteFromIff(u: Update, line: string, k: nat)
    requires u.Valid() && k <= |u.sources|
    requires forall j :: 0 <= j < |u.sources| ==> Differs(u.sources[j], u.dst)
    ensures RewriteFrom(u, line, k).Some? <==> exists j :: k <= j < |u.sources| && Contains(line, u.sources[j])
    decreases |u.sources| - k
  {
    hide ReplacePreserveSpacing, Contains, Differs;
    if k < |u.sources| {
      ChangesIffMentioned(line, u.sources[k], u.dst);
      RewriteFromIff(u, line, k + 1);
    }
  }

  /** The lines that are rewritten are those in which the name of a converted source occurs. */
  lemma RewrittenIffMentioned(u: Update, raw: string)
    requires u.Valid() && forall j :: 0 <= j < |u.sources| ==> Differs(u.sources[j], u.dst)
    ensures RewriteOf(u, raw).Some? <==>
            exists j :: 0 <= j < |u.sources| && Contains(RStrip(u.isSpace, raw), u.sources[j])
  {
    RewriteFromIff(u, RStrip(u.isSpace, raw), 0);
  }

  // ----- What a line becomes

  lemma {:induction false} RewriteFromFirst(u: Update, line: string, k: nat, j: nat)
    requires u.Valid() && k <= j < |u.sources|
    requires forall i :: k <= i <= j ==> Differs(u.sources[i], u.dst)
    requires Contains(line, u.sources[j]) && forall i :: k <= i < j ==> !Contains(line, u.sources[i])
    ensures RewriteFrom(u, line, k)
            == Some(Rewrite(ReplacePreserveSpacing(line, u.sources[j], u.dst), u.shouldKeep(u.sources[j])))
    decreases j - k
  {
    hide ReplacePreserveSpacing, Contains, Differs;
    ChangesIffMentioned(line, u.sources[k], u.dst);
    if k < j {
      RewriteFromFirst(u, line, k + 1, j);
    }
  }

  /**
   The first source j whose name occurs decides: whether the old line is kept is whether the user
   keeps that source.
   */
  lemma FirstSourceDecides(u: Update, raw: string, j: nat)
    requires u.Valid() && j < |u.sources|
    requires forall i :: 0 <= i <= j ==> Differs(u.sources[i], u.dst)
    requires var line := RStrip(u.isSpace, raw);
             Contains(line, u.sources[j]) && forall i :: 0 <= i < j ==> !Contains(line, u.sources[i])
    ensures RewriteOf(u, raw).Some? && RewriteOf(u, raw).value.keepOld == u.shouldKeep(u.sources[j])
    ensures RewriteOf(u, raw).value.text
            == ReplacePreserveSpacing(RStrip(u.isSpace, raw), u.sources[j], u.dst)
  {
    hide RStrip, Contains, Differs, ReplacePreserveSpacing;
    RewriteFromFirst(u, RStrip(u.isSpace, raw), 0, j);
  }

  /** A shorter or equal name is padded with blanks to the length of the old one. */
  lemma PadsShorterName(pre: string, find: string, replacement: string, post: string)
    requires find != "" && |replacement| <= |find|
    requires NoneStartsBefore(pre + (find + post), |pre|, find) && !Contains(post, find)
    ensures ReplacePreserveSpacing(pre + (find + post), find, replacement)
            == pre + (replacement + Spaces(|find| - |replacement|) + post)
  {
    hide Contains, Spaces, NoneStartsBefore;
    var padded := replacement + Spaces(|find| - |replacement|);
    ReplaceSkips(pre, find + post, find, padded);
    assert (find + post)[..|find|] == find && (find + post)[|find|..] == post;
    ReplaceEffect(post, find, padded);
  }

  /**
   The text of a rewritten line: `pre`, the new name, and `post`. The new name has taken the
   blanks behind the old one that it needs, if there are as many, and otherwise those there are;
   with enough of them `post` keeps its column.
   */
  lemma RewrittenText(u: Update, raw: string, j: nat, pre: string, blanks: nat, post: string)
    requires u.Valid() && j < |u.sources| && forall i :: 0 <= i <= j ==> Differs(u.sources[i], u.dst)
    requires var find := u.sources[j];
             && RStrip(u.isSpace, raw) == pre + (find + Spaces(blanks) + post)
             && (forall i :: 0 <= i < j ==> !Contains(RStrip(u.isSpace, raw), u.sources[i]))
             && NoneStartsBefore(pre + (find + Spaces(blanks) + post), |pre|, find)
             && !Contains((find + Spaces(blanks) + post)[1..], find)
             && !Contains(pre + (u.dst + post), find)
             && |find| < |u.dst| && blanks <= |u.dst| - |find|
             && (blanks == |u.dst| - |find| || post == "" || post[0] != ' ')
    ensures RewriteOf(u, raw) == Some(Rewrite(pre + (u.dst + post), u.shouldKeep(u.sources[j])))
    ensures blanks == |u.dst| - |u.sources[j]| ==> |pre + u.dst| == |pre + (u.sources[j] + Spaces(blanks))|
  {
    hide RStrip, Differs, Spaces, NoneStartsBefore, ReplacePadded;
    var find, line := u.sources[j], RStrip(u.isSpace, raw);
    ContainsWhole(find);
    var rest := find + Spaces(blanks) + post;
    assert rest[..|find|] == find;
    ContainsSuffix(pre, rest, find);
    FirstSourceDecides(u, raw, j);
    TakesFollowingSpaces(pre, find, u.dst, blanks, post, |u.dst| - |find|);
  }

  // ----- Lines that list a source

  /** The path an INF line lists: its text before any '|' field or comment. */
  function ListedPath(isSpace: char -> bool, line: string): string {
    Strip(isSpace, Before(Before(line, '#'), '|'))
  }

  lemma {:induction false} BeforeIsPrefix(s: string, c: char)
    ensures Before(s, c) <= s
  {
    if s != "" && s[0] != c {
      BeforeIsPrefix(s[1..], c);
    }
  }

  lemma {:induction false} RStripIsPrefix(isSpace: char -> bool, s: string)
    ensures RStrip(isSpace, s) <= s
  {
    if s != "" && isSpace(s[|s| - 1]) {
      RStripIsPrefix(isSpace, s[..|s| - 1]);
    }
  }

  lemma {:induction false} ContainsLStrip(isSpace: char -> bool, s: string)
    ensures Contains(s, LStrip(isSpace, s))
  {
    if s != "" && isSpace(s[0]) {
      ContainsLStrip(isSpace, s[1..]);
    }
  }

  lemma {:induction false} ContainsInPrefix(s: string, longer: string, part: string)
    requires s <= longer && Contains(s, part)
    ensures Contains(longer, part)
    decreases |s|
  {
    if part <= s {
      assert longer[..|part|] == s[..|part|] == part;
    } else {
      assert s[1..] <= longer[1..];
      ContainsInPrefix(s[1..], longer[1..], part);
    }
  }

  /** A line mentions the path it lists. */
  lemma MentionsListedPath(isSpace: char -> bool, line: string)
    ensures Contains(line, ListedPath(isSpace, line))
  {
    hide Contains, Before, RStrip, LStrip;
    var a := Before(line, '#');
    var b := Before(a, '|');
    var c := RStrip(isSpace, b);
    ContainsLStrip(isSpace, c);
    RStripIsPrefix(isSpace, b);
    ContainsInPrefix(c, b, LStrip(isSpace, c));
    BeforeIsPrefix(a, '|');
    ContainsInPrefix(b, a, LStrip(isSpace, c));
    BeforeIsPrefix(line, '#');
    ContainsInPrefix(a, line, LStrip(isSpace, c));
  }

  /**
   The test for a rewrite is containment, so a line is rewritten exactly if it lists a converted
   source, if and only if it does list one or no source name occurs anywhere in it: not within a
   longer path, and not in the fields and the comment behind the path.
   */
  lemma RewrittenIffListedIff(u: Update, raw: string)
    requires u.Valid() && forall j :: 0 <= j < |u.sources| ==> Differs(u.sources[j], u.dst)
    ensures var line := RStrip(u.isSpace, raw);
            (RewriteOf(u, raw).Some? <==> ListedPath(u.isSpace, line) in u.sources) <==>
            || ListedPath(u.isSpace, line) in u.sources
            || forall j :: 0 <= j < |u.sources| ==> !Contains(line, u.sources[j])
  {
    hide Contains, ListedPath, RewriteOf, RStrip, Differs;
    RewrittenIffMentioned(u, raw);
    MentionsListedPath(u.isSpace, RStrip(u.isSpace, raw));
  }

  /** The line of another file, whose name ends like that of the converted one. */
  lemma RewritesLongerName(u: Update)
    requires u.sources == ["Foo.asm"] && u.dst == "Foo.nasm"
    requires u.isSpace(' ') && !u.isSpace('M') && !u.isSpace('m')
    ensures ListedPath(u.isSpace, "  MyFoo.asm") == "MyFoo.asm"
    ensures RewriteOf(u, "  MyFoo.asm").Some?
  {
    hide Contains, RewriteOf, Before;
    var line := "  MyFoo.asm";
    BeforeAbsent(line, '#');
    BeforeAbsent(line, '|');
    assert line[1..][1..] == "MyFoo.asm";
    assert RStrip(u.isSpace, line) == line;
    assert LStrip(u.isSpace, line) == "MyFoo.asm";
    assert line == "  My" + "Foo.asm";
    ContainsWhole("Foo.asm");
    ContainsSuffix("  My", "Foo.asm", "Foo.asm");
    AsmDiffersFromNasm();
    RewrittenIffMentioned(u, line);
    assert Contains(RStrip(u.isSpace, line), u.sources[0]);
  }

  lemma ContainsWhole(s: string)
    ensures Contains(s, s)
  {
  }

  lemma AsmDiffersFromNasm()
    ensures Differs("Foo.asm", "Foo.nasm")
  {
    assert ("Foo.asm" + Spaces(1))[4] == 'a' && "Foo.nasm"[4] == 'n';
  }

  // ----- What the whole file becomes

  /** The text by which repeated rewrites are recognised. */
  ghost function Key(u: Update, raw: string): string
    requires u.Valid() && RewriteOf(u, raw).Some?
  {
    Strip(u.isSpace, RewriteOf(u, raw).value.text)
  }

  /** All lines from j up to, but not including, n are rewritten. */
  ghost predicate Run(u: Update, orig: seq<string>, j: nat, n: nat)
    requires u.Valid() && n <= |orig|
  {
    j < n && forall k :: j <= k < n ==> RewriteOf(u, orig[k]).Some?
  }

  /** A line of the run that ends at n was rewritten to this text. */
  ghost predicate SeenInRun(u: Update, orig: seq<string>, n: nat, key: string)
    requires u.Valid() && n <= |orig|
  {
    exists j :: 0 <= j && Run(u, orig, j, n) && Key(u, orig[j]) == key
  }

  /** What line i contributes: its rewrite unless the run already has it, and itself if it stays. */
  ghost function Contribution(u: Update, orig: seq<string>, i: nat): seq<string>
    requires u.Valid() && i < |orig|
  {
    match RewriteOf(u, orig[i])
    case None => [orig[i]]
    case Some(r) =>
      (if SeenInRun(u, orig, i, Key(u, orig[i])) then [] else [r.text + "\n"])
      + (if r.keepOld then [orig[i]] else [])
  }

  ghost function Updated(u: Update, orig: seq<string>, n: nat): seq<string>
    requires u.Valid() && n <= |orig|
  {
    if n == 0 then [] else Updated(u, orig, n - 1) + Contribution(u, orig, n - 1)
  }

  lemma SeenStep(u: Update, orig: seq<string>, n: nat, key: string)
    requires u.Valid() && n < |orig|
    ensures RewriteOf(u, orig[n]).None? ==> !SeenInRun(u, orig, n + 1, key)
    ensures RewriteOf(u, orig[n]).Some? ==>
              (SeenInRun(u, orig, n + 1, key) <==> SeenInRun(u, orig, n, key) || Key(u, orig[n]) == key)
  {
    hide RewriteOf, Key;
    if RewriteOf(u, orig[n]).Some? {
      if SeenInRun(u, orig, n, key) {
        var j :| 0 <= j && Run(u, orig, j, n) && Key(u, orig[j]) == key;
        assert Run(u, orig, j, n + 1);
      }
      if Key(u, orig[n]) == key {
        assert Run(u, orig, n, n + 1);
      }
      if SeenInRun(u, orig, n + 1, key) && Key(u, orig[n]) != key {
        var j :| 0 <= j && Run(u, orig, j, n + 1) && Key(u, orig[j]) == key;
        assert j != n;
        assert Run(u, orig, j, n);
      }
    }
  }

  ghost predicate AnyRewritten(u: Update, orig: seq<string>, n: nat)
    requires u.Valid() && n <= |orig|
  {
    exists k :: 0 <= k < n && RewriteOf(u, orig[k]).Some?
  }

  lemma AnyRewrittenStep(u: Update, orig: seq<string>, n: nat)
    requires u.Valid() && n < |orig|
    ensures AnyRewritten(u, orig, n + 1) <==> AnyRewritten(u, orig, n) || RewriteOf(u, orig[n]).Some?
  {
    hide RewriteOf;
  }

  // ----- The scan

  /** filter(lambda l: l is not None, lines) */
  function Present(lines: seq<Option<string>>): seq<string> {
    if lines == [] then []
    else Present(lines[..|lines| - 1]) + match lines[|lines| - 1] case None => [] case Some(l) => [l]
  }

  function AllSome(lines: seq<string>): (r: seq<Option<string>>)
    ensures |r| == |lines|
  {
    seq(|lines|, i requires 0 <= i < |lines| => Some(lines[i]))
  }

  lemma {:induction false} PresentAllSome(lines: seq<string>)
    ensures Present(AllSome(lines)) == lines
    decreases |lines|
  {
    if lines != [] {
      assert AllSome(lines)[..|lines| - 1] == AllSome(lines[..|lines| - 1]);
      PresentAllSome(lines[..|lines| - 1]);
    }
  }

  lemma AllSomeStep(lines: seq<string>, n: nat)
    requires n < |lines|
    ensures AllSome(lines[n..]) == [Some(lines[n])] + AllSome(lines[n + 1..])
    ensures AllSome(lines[..n + 1]) == AllSome(lines[..n]) + [Some(lines[n])]
  {
  }

  lemma AllSomeEnds(lines: seq<string>)
    ensures AllSome(lines[0..]) == AllSome(lines)
    ensures AllSome(lines[..0]) == []
    ensures AllSome(lines[..|lines|]) == AllSome(lines)
    ensures AllSome(lines[|lines|..]) == []
  {
    assert lines[..|lines|] == lines;
  }

  lemma PresentAppend(lines: seq<Option<string>>, l: Option<string>)
    ensures Present(lines + [l]) == Present(lines) + match l case None => [] case Some(t) => [t]
  {
    assert (lines + [l])[..|lines|] == lines;
  }

  /** After n original lines: `done` holds their contributions, `recent` the texts of the current run. */
  ghost predicate Scanned(u: Update, orig: seq<string>, n: nat, done: seq<Option<string>>, recent: seq<string>)
    requires u.Valid() && n <= |orig|
  {
    && Present(done) == Updated(u, orig, n)
    && forall key :: key in recent <==> SeenInRun(u, orig, n, key)
  }

  lemma ScanStart(u: Update, orig: seq<string>)
    requires u.Valid()
    ensures Scanned(u, orig, 0, [], [])
    ensures !AnyRewritten(u, orig, 0)
  {
  }

  lemma RecentStep(u: Update, orig: seq<string>, n: nat, recent: seq<string>, recent': seq<string>)
    requires u.Valid() && n < |orig|
    requires forall key :: key in recent <==> SeenInRun(u, orig, n, key)
    requires match RewriteOf(u, orig[n])
             case None => recent' == []
             case Some(_) => var key := Key(u, orig[n]); recent' == if key in recent then recent else recent + [key]
    ensures forall key :: key in recent' <==> SeenInRun(u, orig, n + 1, key)
  {
    hide RewriteOf, Key, SeenInRun;
    forall key ensures key in recent' <==> SeenInRun(u, orig, n + 1, key) {
      SeenStep(u, orig, n, key);
    }
  }

  /** One line of the scan, in each of its five branches. */
  lemma ScanStep(u: Update, orig: seq<string>, n: nat, done: seq<Option<string>>, recent: seq<string>)
    requires u.Valid() && n < |orig| && Scanned(u, orig, n, done, recent)
    ensures match RewriteOf(u, orig[n])
            case None => Scanned(u, orig, n + 1, done + [Some(orig[n])], [])
            case Some(r) =>
              var key, line := Strip(u.isSpace, r.text), Some(r.text + "\n");
              if r.keepOld then
                if key in recent then Scanned(u, orig, n + 1, done + [Some(orig[n])], recent)
                else Scanned(u, orig, n + 1, done + [line] + [Some(orig[n])], recent + [key])
              else
                if key in recent then Scanned(u, orig, n + 1, done + [None], recent)
                else Scanned(u, orig, n + 1, done + [line], recent + [key])
  {
    hide RewriteOf, Present, SeenInRun, Strip;
    PresentAppend(done, None);
    PresentAppend(done, Some(orig[n]));
    match RewriteOf(u, orig[n]) {
      case None =>
        RecentStep(u, orig, n, recent, []);
      case Some(r) =>
        var key, line := Strip(u.isSpace, r.text), Some(r.text + "\n");
        assert Key(u, orig[n]) == key;
        PresentAppend(done, line);
        PresentAppend(done + [line], Some(orig[n]));
        RecentStep(u, orig, n, recent, if key in recent then recent else recent + [key]);
    }
  }

  /** ConvertInfFile, as far as its lines go. */
  class InfFile {
    var lines: seq<Option<string>>

    constructor (text: seq<string>)
      ensures lines == AllSome(text)
    {
      lines := AllSome(text);
    }

    /** lines.insert(i, x), seen from a cut of the list at i */
    method Insert(i: nat, x: Option<string>, ghost done: seq<Option<string>>, ghost rest: seq<Option<string>>)
      requires i == |done| && lines == done + rest
      modifies this
      ensures lines == done + [x] + rest
    {
      lines := lines[..i] + [x] + lines[i..];
    }

    /** lines[i] = x */
    method Set(i: nat, x: Option<string>, ghost done: seq<Option<string>>, ghost next: Option<string>,
               ghost rest: seq<Option<string>>)
      requires i == |done| && lines == done + ([next] + rest)
      modifies this
      ensures lines == done + [x] + rest
    {
      lines := lines[i := x];
    }

    /** One line of the scan; it leaves one line fewer to look at. */
    method ScanLine(u: Update, i: nat, recent: seq<string>,
                    ghost orig: seq<string>, ghost n: nat, ghost done: seq<Option<string>>)
      returns (lineChanged: bool, recentSources: seq<string>, next: nat, ghost done': seq<Option<string>>)
      requires u.Valid() && n < |orig| && Scanned(u, orig, n, done, recent)
      requires i == |done| && lines == done + AllSome(orig[n..])
      modifies this
      ensures next == |done'| && lines == done' + AllSome(orig[n + 1..])
      ensures Scanned(u, orig, n + 1, done', recentSources)
      ensures lineChanged <==> RewriteOf(u, orig[n]).Some?
      ensures !lineChanged ==> done' == done + [Some(orig[n])]
    {
      hide RewriteOf, Scanned, Strip, AllSome;
      ScanStep(u, orig, n, done, recent);
      AllSomeStep(orig, n);
      ghost var current, rest := Some(orig[n]), AllSome(orig[n + 1..]);
      assert lines[i] == current && lines == done + ([current] + rest);
      var raw := lines[i].value;
      var updatedLine, preserveOldSource;
      updatedLine, lineChanged, preserveOldSource := RewriteLine(u, raw);
      var key, line := Strip(u.isSpace, updatedLine), Some(updatedLine + "\n");
      recentSources, next, done' := recent, i, done;
      if lineChanged {
        if preserveOldSource {
          if key !in recentSources {
            Insert(i, line, done, [current] + rest);
            recentSources := recentSources + [key];
            next := next + 1;
            done' := done + [line];
          }
          PassOver(done', current, rest);
          done' := done' + [current];
        } else {
          if key in recentSources {
            Set(i, None, done, current, rest);
            done' := done + [None];
          } else {
            Set(i, line, done, current, rest);
            recentSources := recentSources + [key];
            done' := done + [line];
          }
        }
      } else {
        if |recentSources| > 0 {
          recentSources := [];
        }
        PassOver(done, current, rest);
        done' := done + [current];
      }
      next := next + 1;
    }

    /**
     The scan of UpdateInfAsmFile. It grows the list it scans, yet each step leaves one line
     fewer to look at; no blanked-out line is ever read.
     */
    method UpdateLines(u: Update, ghost orig: seq<string>) returns (fileChanged: bool)
      requires u.Valid()
      requires lines == AllSome(orig)
      modifies this
      ensures lines == AllSome(Updated(u, orig, |orig|))
      ensures fileChanged <==> AnyRewritten(u, orig, |orig|)
    {
      hide RewriteOf, Scanned, AllSome, AnyRewritten, Updated;
      fileChanged := false;
      var recentSources: seq<string> := [];
      var i := 0;
      ghost var n, done := 0, [];
      ScanStart(u, orig);
      AllSomeEnds(orig);
      while i < |lines|
        invariant 0 <= n <= |orig| && i == |done|
        invariant lines == done + AllSome(orig[n..])
        invariant Scanned(u, orig, n, done, recentSources)
        invariant fileChanged <==> AnyRewritten(u, orig, n)
        invariant !fileChanged ==> done == AllSome(orig[..n])
        decreases |orig| - n
      {
        AllSomeStep(orig, n);
        AnyRewrittenStep(u, orig, n);
        var lineChanged;
        lineChanged, recentSources, i, done := ScanLine(u, i, recentSources, orig, n, done);
        fileChanged := fileChanged || lineChanged;
        n := n + 1;
      }
      assert n == |orig| && lines == done;
      FinishScan(u, orig, done, recentSources, fileChanged);
      if fileChanged {
        lines := AllSome(Present(lines));
      }
    }
  }

  /** The scan moves on over the next line. */
  lemma PassOver(done: seq<Option<string>>, next: Option<string>, rest: seq<Option<string>>)
    ensures done + ([next] + rest) == done + [next] + rest
  {
  }

  lemma FinishScan(u: Update, orig: seq<string>, done: seq<Option<string>>, recent: seq<string>, fileChanged: bool)
    requires u.Valid() && Scanned(u, orig, |orig|, done, recent)
    requires !fileChanged ==> done == AllSome(orig)
    ensures Present(done) == Updated(u, orig, |orig|)
    ensures !fileChanged ==> Updated(u, orig, |orig|) == orig
  {
    PresentAllSome(orig);
  }

  // ----- What that means for the file

  lemma {:induction false} UpdatedExtends(u: Update, orig: seq<string>, m: nat, n: nat)
    requires u.Valid() && m <= n <= |orig|
    ensures Updated(u, orig, m) <= Updated(u, orig, n)
    decreases n
  {
    hide Contribution;
    if m < n {
      UpdatedExtends(u, orig, m, n - 1);
    }
  }

  /** A line that is not rewritten, or whose source is kept, survives verbatim. */
  ghost predicate Survives(u: Update, orig: seq<string>, i: nat)
    requires u.Valid() && i < |orig|
  {
    RewriteOf(u, orig[i]).None? || RewriteOf(u, orig[i]).value.keepOld
  }

  /** The place of a surviving line in the new file. */
  ghost function NewIndex(u: Update, orig: seq<string>, i: nat): int
    requires u.Valid() && i < |orig|
  {
    |Updated(u, orig, i + 1)| - 1
  }

  lemma SurvivorIsLast(u: Update, orig: seq<string>, i: nat)
    requires u.Valid() && i < |orig| && Survives(u, orig, i)
    ensures var c := Contribution(u, orig, i); c != [] && c[|c| - 1] == orig[i]
  {
    hide RewriteOf, SeenInRun, Key;
  }

  lemma SurvivorIsKept(u: Update, orig: seq<string>, i: nat)
    requires u.Valid() && i < |orig| && Survives(u, orig, i)
    ensures |Updated(u, orig, i)| <= NewIndex(u, orig, i) < |Updated(u, orig, |orig|)|
    ensures Updated(u, orig, |orig|)[NewIndex(u, orig, i)] == orig[i]
  {
    hide Contribution, Survives;
    SurvivorIsLast(u, orig, i);
    UpdatedExtends(u, orig, i + 1, |orig|);
  }

  /** Surviving lines are all there, verbatim and in their old order. */
  lemma SurvivorsKeepOrder(u: Update, orig: seq<string>, i: nat, j: nat)
    requires u.Valid() && i < j < |orig| && Survives(u, orig, i) && Survives(u, orig, j)
    ensures 0 <= NewIndex(u, orig, i) < NewIndex(u, orig, j) < |Updated(u, orig, |orig|)|
    ensures Updated(u, orig, |orig|)[NewIndex(u, orig, i)] == orig[i]
    ensures Updated(u, orig, |orig|)[NewIndex(u, orig, j)] == orig[j]
  {
    hide Updated, Survives;
    SurvivorIsKept(u, orig, i);
    SurvivorIsKept(u, orig, j);
    UpdatedExtends(u, orig, i + 1, j);
  }

  /** Line i is the first of its run with its rewritten text, so that text is emitted for it. */
  ghost predicate Emits(u: Update, orig: seq<string>, i: nat)
    requires u.Valid() && i < |orig|
  {
    RewriteOf(u, orig[i]).Some? && !SeenInRun(u, orig, i, Key(u, orig[i]))
  }

  lemma EmissionIsFirst(u: Update, orig: seq<string>, i: nat)
    requires u.Valid() && i < |orig| && Emits(u, orig, i)
    ensures var c := Contribution(u, orig, i); c != [] && c[0] == RewriteOf(u, orig[i]).value.text + "\n"
  {
    hide RewriteOf, SeenInRun, Key;
  }

  /** The rewritten text, ended by a line feed, stands where the lines before have left off. */
  lemma EmittedText(u: Update, orig: seq<string>, i: nat)
    requires u.Valid() && i < |orig| && Emits(u, orig, i)
    ensures |Updated(u, orig, i)| < |Updated(u, orig, |orig|)|
    ensures Updated(u, orig, |orig|)[|Updated(u, orig, i)|] == RewriteOf(u, orig[i]).value.text + "\n"
  {
    hide Contribution, Emits, RewriteOf;
    EmissionIsFirst(u, orig, i);
    UpdatedExtends(u, orig, i + 1, |orig|);
  }

  /** How many lines line i is worth in the new file. */
  ghost function Worth(u: Update, orig: seq<string>, i: nat): nat
    requires u.Valid() && i < |orig|
  {
    (if Emits(u, orig, i) then 1 else 0) + (if Survives(u, orig, i) then 1 else 0)
  }

  ghost function TotalWorth(u: Update, orig: seq<string>, n: nat): nat
    requires u.Valid() && n <= |orig|
  {
    if n == 0 then 0 else TotalWorth(u, orig, n - 1) + Worth(u, orig, n - 1)
  }

  /** The new file holds the emissions and the surviving lines, and nothing else. */
  lemma {:induction false} NothingElse(u: Update, orig: seq<string>, n: nat)
    requires u.Valid() && n <= |orig|
    ensures |Updated(u, orig, n)| == TotalWorth(u, orig, n)
    decreases n
  {
    hide Contribution, Worth;
    if n > 0 {
      NothingElse(u, orig, n - 1);
      ContributionLength(u, orig, n - 1);
    }
  }

  lemma ContributionLength(u: Update, orig: seq<string>, i: nat)
    requires u.Valid() && i < |orig|
    ensures |Contribution(u, orig, i)| == Worth(u, orig, i)
  {
    hide RewriteOf, SeenInRun, Key;
  }

  /** The text a line is rewritten to, without the white space around it. */
  ghost function BareText(u: Update, raw: string): string
    requires u.Valid() && RewriteOf(u, raw).Some?
  {
    Strip(u.isSpace, RewriteOf(u, raw).value.text)
  }

  /**
   Within a run of rewritten lines each rewritten text is emitted for exactly one line; texts that
   differ only in the white space around them count as the same.
   */
  lemma OncePerRun(u: Update, orig: seq<string>, a: nat, i: nat)
    requires u.Valid() && i < |orig| && Run(u, orig, a, i + 1)
    requires a == 0 || RewriteOf(u, orig[a - 1]).None?
    ensures exists j :: a <= j <= i && Emits(u, orig, j) && BareText(u, orig[j]) == BareText(u, orig[i])
    ensures forall j, k :: a <= j < k <= i && BareText(u, orig[j]) == BareText(u, orig[k]) ==> !Emits(u, orig, k)
  {
    hide RewriteOf, Emits, Strip;
    assert forall j :: a <= j <= i ==> Key(u, orig[j]) == BareText(u, orig[j]);
    OneEmissionPerKey(u, orig, a, i);
  }

  lemma {:induction false} OneEmissionPerKey(u: Update, orig: seq<string>, a: nat, i: nat)
    requires u.Valid() && i < |orig| && Run(u, orig, a, i + 1)
    requires a == 0 || RewriteOf(u, orig[a - 1]).None?
    ensures exists j :: a <= j <= i && Emits(u, orig, j) && Key(u, orig[j]) == Key(u, orig[i])
    ensures forall j, k :: a <= j < k <= i && Key(u, orig[j]) == Key(u, orig[k]) ==> !Emits(u, orig, k)
    decreases i
  {
    hide RewriteOf, Key;
    forall j, k | a <= j < k <= i && Key(u, orig[j]) == Key(u, orig[k])
      ensures !Emits(u, orig, k)
    {
      assert Run(u, orig, j, k);
    }
    if SeenInRun(u, orig, i, Key(u, orig[i])) {
      var j :| 0 <= j && Run(u, orig, j, i) && Key(u, orig[j]) == Key(u, orig[i]);
      assert a <= j;
      OneEmissionPerKey(u, orig, a, j);
    } else {
      assert Emits(u, orig, i);
    }
  }
}
