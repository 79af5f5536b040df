/**
 DetectNotUsedItem.py: reading INF, DSC and FDF files with a reverse scan that deletes by
 value, collecting the items of a DEC file with the lines each one owns, and cleaning the
 DEC file of the items that nothing references.
 */
module DetectNotUsedItem {
  import opened PyStrings

  type Lines = seq<string>

  predicate IsComment(isSpace: char -> bool, l: string) {
    "#" <= Strip(isSpace, l)
  }

  predicate IsEmptyLine(l: string) { l == "\n" || l == "\r\n" }

  // ----- ParseDscFdfInfContent

  predicate IsRemovable(isSpace: char -> bool, l: string) {
    IsComment(isSpace, l) || IsEmptyLine(l)
  }

  /** A line without its comment and surrounding white space. */
  function Trimmed(isSpace: char -> bool, l: string): string {
    if '#' in l then Strip(isSpace, Before(l, '#')) else Strip(isSpace, l)
  }

  /** Filter, then strip. */
  function Content(isSpace: char -> bool, lines: Lines): Lines {
    if lines == [] then []
    else (if IsRemovable(isSpace, lines[0]) then [] else [Trimmed(isSpace, lines[0])]) + Content(isSpace, lines[1..])
  }

  /** list.remove: deletes the first element equal to x. */
  function RemoveFirst(lines: Lines, x: string): Lines
    requires x in lines
  {
    if lines[0] == x then lines[1..] else [lines[0]] + RemoveFirst(lines[1..], x)
  }

  lemma {:induction false} ContentConcat(isSpace: char -> bool, a: Lines, b: Lines)
    ensures Content(isSpace, a + b) == Content(isSpace, a) + Content(isSpace, b)
    decreases |a|
  {
    if a == [] {
      assert a + b == b;
    } else {
      assert (a + b)[1..] == a[1..] + b;
      ContentConcat(isSpace, a[1..], b);
    }
  }

  lemma {:induction false} RemoveFirstInFront(lines: Lines, tail: Lines, x: string)
    requires x in lines
    ensures RemoveFirst(lines + tail, x) == RemoveFirst(lines, x) + tail
    ensures |RemoveFirst(lines, x)| == |lines| - 1
    decreases |lines|
  {
    assert (lines + tail)[1..] == lines[1..] + tail;
    if lines[0] != x {
      RemoveFirstInFront(lines[1..], tail, x);
    }
  }

  /** Deleting the first equal line instead of the current one drops the same content. */
  lemma {:induction false} RemoveFirstKeepsContent(isSpace: char -> bool, lines: Lines, x: string)
    requires x in lines && IsRemovable(isSpace, x)
    ensures Content(isSpace, RemoveFirst(lines, x)) == Content(isSpace, lines)
    decreases |lines|
  {
    hide IsRemovable, Trimmed;
    if lines[0] != x {
      RemoveFirstKeepsContent(isSpace, lines[1..], x);
      assert RemoveFirst(lines, x)[1..] == RemoveFirst(lines[1..], x);
    }
  }

  /** The reverse scan; the deletions move lines that are still to be looked at. */
  method ParseDscFdfInfContent(isSpace: char -> bool, file: Lines) returns (lines: Lines)
    ensures lines == Content(isSpace, file)
  {
    hide IsRemovable, Trimmed;
    lines := file;
    var i := |lines|;
    ghost var ahead, done: Lines := file, [];
    assert file + [] == file;
    while i > 0
      invariant lines == ahead + done && |ahead| == i
      invariant Content(isSpace, ahead) + done == Content(isSpace, file)
    {
      i := i - 1;
      var line := lines[i];
      ghost var front := ahead[..i];
      assert ahead == front + [line];
      ContentConcat(isSpace, front, [line]);
      assert Content(isSpace, [line]) == if IsRemovable(isSpace, line) then [] else [Trimmed(isSpace, line)];
      if IsRemovable(isSpace, line) {
        RemoveFirstInFront(ahead, done, line);
        RemoveFirstKeepsContent(isSpace, ahead, line);
        lines := RemoveFirst(lines, line);
        ahead := RemoveFirst(ahead, line);
      } else {
        lines := lines[i := Trimmed(isSpace, line)];
        ahead, done := front, [Trimmed(isSpace, line)] + done;
      }
    }
  }

  /** A line that is kept yields its text, without the white space around it and without its comment. */
  lemma TrimsLine(isSpace: char -> bool, left: string, text: string, right: string, comment: string)
    requires Blank(isSpace, left) && Blank(isSpace, right) && '#' !in left + text + right
    requires text != "" && !isSpace(text[0]) && !isSpace(text[|text| - 1])
    ensures Trimmed(isSpace, left + text + right) == text
    ensures Trimmed(isSpace, left + text + right + ['#'] + comment) == text
  {
    hide Strip;
    StripPads(isSpace, left, text, right);
    BeforeFirst(left + text + right, '#', comment);
    assert (left + text + right + ['#'] + comment)[|left + text + right|] == '#';
  }

  /** Comment lines and empty lines are the ones that are not. */
  lemma DropsLine(isSpace: char -> bool, left: string, comment: string)
    requires Blank(isSpace, left) && !isSpace('#')
    ensures IsRemovable(isSpace, "\n") && IsRemovable(isSpace, "\r\n")
    ensures IsRemovable(isSpace, left + ['#'] + comment)
  {
    var l := left + ['#'] + comment;
    RStripKeepsFront(isSpace, left + ['#'], comment);
    var tail :| RStrip(isSpace, l) == left + ['#'] + tail;
    assert left + ['#'] + tail == left + (['#'] + tail);
    LStripPad(isSpace, left, ['#'] + tail);
  }

  lemma {:induction false} RStripKeepsFront(isSpace: char -> bool, front: string, s: string)
    requires front != "" && !isSpace(front[|front| - 1])
    ensures exists tail :: RStrip(isSpace, front + s) == front + tail
    decreases |s|
  {
    if s == "" {
      assert front + s == front + "" == front;
    } else if isSpace(s[|s| - 1]) {
      assert (front + s)[..|front + s| - 1] == front + s[..|s| - 1];
      RStripKeepsFront(isSpace, front, s[..|s| - 1]);
    }
  }

  // ----- The items of a DEC file

  const SECTION_LIST: seq<string> := ["LibraryClasses", "Guids", "Ppis", "Protocols", "Pcd"]

  /** IsNeedParseSection */
  predicate IsNeeded(section: string) {
    exists k :: 0 <= k < |SECTION_LIST| && Contains(section, SECTION_LIST[k])
  }

  /** The position of the first '[' (or the length), and of the last ']' (or -1). */
  function FirstOpen(l: string): nat {
    if l == "" || l[0] == '[' then 0 else 1 + FirstOpen(l[1..])
  }

  function LastClose(l: string): (i: int)
    ensures -1 <= i < |l|
  {
    if l == "" then -1 else if l[|l| - 1] == ']' then |l| - 1 else LastClose(l[..|l| - 1])
  }

  /** SectionRE.findall (l) is not empty. */
  predicate HasSection(l: string) { FirstOpen(l) < LastClose(l) }

  /** Its first match: from the first '[' to the last ']'. */
  function Section(l: string): string
    requires HasSection(l)
  {
    l[FirstOpen(l) + 1..LastClose(l)]
  }

  function ItemName(isSpace: char -> bool, l: string): string {
    Strip(isSpace, Before(Before(Before(l, '='), '|'), '#'))
  }

  /** The name of an item is what stands before a value, a PCD field or a comment. */
  lemma ItemNameOf(isSpace: char -> bool, name: string, separator: char, rest: string)
    requires separator in "=|#" && '=' !in name && '|' !in name && '#' !in name
    ensures ItemName(isSpace, name + [separator] + rest) == Strip(isSpace, name)
    ensures ItemName(isSpace, name) == Strip(isSpace, name)
  {
    hide Strip, Before;
    var l := name + [separator] + rest;
    BeforeAbsent(name, '=');
    BeforeAbsent(name, '|');
    BeforeAbsent(name, '#');
    if separator == '=' {
      BeforeFirst(name, '=', rest);
    } else {
      var front := name + [separator];
      BeforeThrough(front, rest, '=');
      var t := Before(rest, '=');
      if separator == '|' {
        BeforeFirst(name, '|', t);
      } else {
        BeforeThrough(front, t, '|');
        BeforeFirst(name, '#', Before(t, '|'));
      }
    }
  }

  lemma NeededSections(section: string)
    ensures IsNeeded(section) <==>
            || Contains(section, "LibraryClasses") || Contains(section, "Guids") || Contains(section, "Ppis")
            || Contains(section, "Protocols") || Contains(section, "Pcd")
  {
    hide Contains;
    assert SECTION_LIST[0] == "LibraryClasses" && SECTION_LIST[1] == "Guids" && SECTION_LIST[2] == "Ppis";
    assert SECTION_LIST[3] == "Protocols" && SECTION_LIST[4] == "Pcd";
  }

  /** A line that opens a section. */
  predicate IsHeader(isSpace: char -> bool, l: string) {
    HasSection(l) && !IsComment(isSpace, l)
  }

  /** Line i lies in a section that is looked at: the last header at or before it is needed. */
  ghost predicate InNeededSection(isSpace: char -> bool, lines: Lines, i: nat)
    requires i < |lines|
  {
    exists h :: 0 <= h <= i && IsHeader(isSpace, lines[h]) && IsNeeded(Section(lines[h])) &&
                forall k :: h < k <= i ==> !IsHeader(isSpace, lines[k])
  }

  /** Line i declares an item. The header of a section counts as one. */
  ghost predicate IsItem(isSpace: char -> bool, lines: Lines, i: nat)
    requires i < |lines|
  {
    InNeededSection(isSpace, lines, i) && !IsComment(isSpace, lines[i]) && !IsEmptyLine(lines[i])
  }

  /** Item t owns line j: j is t or one of the lines of needed sections since the previous item. */
  ghost predicate Owns(isSpace: char -> bool, lines: Lines, t: nat, j: nat)
    requires t < |lines|
  {
    && j <= t
    && IsItem(isSpace, lines, t)
    && InNeededSection(isSpace, lines, j)
    && forall k :: j <= k < t ==> !IsItem(isSpace, lines, k)
  }

  /** Ownership lists of different items are disjoint. */
  lemma OwnerIsUnique(isSpace: char -> bool, lines: Lines, t: nat, u: nat, j: nat)
    requires t < |lines| && u < |lines| && Owns(isSpace, lines, t, j) && Owns(isSpace, lines, u, j)
    ensures t == u
  {
  }

  ghost predicate Flag(isSpace: char -> bool, lines: Lines, i: int)
    requires i < |lines|
  {
    0 <= i && InNeededSection(isSpace, lines, i)
  }

  lemma FlagStep(isSpace: char -> bool, lines: Lines, i: nat)
    requires i < |lines|
    ensures Flag(isSpace, lines, i)
            <==> if IsHeader(isSpace, lines[i]) then IsNeeded(Section(lines[i])) else Flag(isSpace, lines, i - 1)
  {
    hide HasSection, IsComment, IsNeeded, Section;
    if !IsHeader(isSpace, lines[i]) && i > 0 && InNeededSection(isSpace, lines, i - 1) {
      var h :| 0 <= h <= i - 1 && IsHeader(isSpace, lines[h]) && IsNeeded(Section(lines[h])) &&
               forall k :: h < k <= i - 1 ==> !IsHeader(isSpace, lines[k]);
      assert forall k :: h < k <= i ==> !IsHeader(isSpace, lines[k]);
    }
  }

  /** The needed lines before n that no item owns yet, in order. */
  ghost predicate IsPending(isSpace: char -> bool, lines: Lines, n: nat, pending: seq<nat>)
    requires n <= |lines|
  {
    && (forall j :: j in pending <==>
          0 <= j < n && InNeededSection(isSpace, lines, j) && forall k :: j <= k < n ==> !IsItem(isSpace, lines, k))
    && (forall a, b :: 0 <= a < b < |pending| ==> pending[a] < pending[b])
  }

  lemma PendingStep(isSpace: char -> bool, lines: Lines, n: nat, pending: seq<nat>)
    requires n < |lines| && IsPending(isSpace, lines, n, pending)
    ensures !InNeededSection(isSpace, lines, n) ==> IsPending(isSpace, lines, n + 1, pending)
    ensures InNeededSection(isSpace, lines, n) && !IsItem(isSpace, lines, n) ==>
              IsPending(isSpace, lines, n + 1, pending + [n])
    ensures IsItem(isSpace, lines, n) ==> IsPending(isSpace, lines, n + 1, [])
    ensures IsItem(isSpace, lines, n) ==> IsOwnedList(isSpace, lines, n, pending + [n])
  {
    hide InNeededSection, IsComment;
    assert forall a :: 0 <= a < |pending| ==> pending[a] in pending;
  }

  /** Exactly the lines that item t owns, in order. */
  ghost predicate IsOwnedList(isSpace: char -> bool, lines: Lines, t: nat, owned: seq<nat>)
    requires t < |lines|
  {
    && (forall j :: j in owned <==> 0 <= j <= t && Owns(isSpace, lines, t, j))
    && (forall a, b :: 0 <= a < b < |owned| ==> owned[a] < owned[b])
  }

  /** ItemName and Comments describe the items among the first n lines. */
  ghost predicate Parsed(isSpace: char -> bool, lines: Lines, n: nat, names: map<nat, string>, comments: map<nat, seq<nat>>)
    requires n <= |lines|
  {
    && (forall t :: t in names <==> 0 <= t < n && IsItem(isSpace, lines, t))
    && names.Keys == comments.Keys
    && (forall t :: t in names ==> names[t] == ItemName(isSpace, lines[t]) && IsOwnedList(isSpace, lines, t, comments[t]))
  }

  lemma ParsedStep(isSpace: char -> bool, lines: Lines, n: nat, names: map<nat, string>, comments: map<nat, seq<nat>>,
                   owned: seq<nat>)
    requires n < |lines| && Parsed(isSpace, lines, n, names, comments)
    ensures !IsItem(isSpace, lines, n) ==> Parsed(isSpace, lines, n + 1, names, comments)
    ensures IsItem(isSpace, lines, n) && IsOwnedList(isSpace, lines, n, owned) ==>
              Parsed(isSpace, lines, n + 1, names[n := ItemName(isSpace, lines[n])], comments[n := owned])
  {
    hide IsItem, IsOwnedList, ItemName;
  }

  /** ParseDecContent. */
  method ParseDecContent(isSpace: char -> bool, lines: Lines) returns (itemName: map<nat, string>, comments: map<nat, seq<nat>>)
    ensures Parsed(isSpace, lines, |lines|, itemName, comments)
  {
    hide Parsed, IsPending, IsOwnedList, InNeededSection, IsComment, HasSection, Section, IsNeeded, ItemName;
    var flag := false;
    var commentLine: seq<nat> := [];
    itemName, comments := map[], map[];
    ParseStart(isSpace, lines);
    var index := 0;
    while index < |lines|
      invariant 0 <= index <= |lines|
      invariant flag <==> Flag(isSpace, lines, index - 1)
      invariant IsPending(isSpace, lines, index, commentLine)
      invariant Parsed(isSpace, lines, index, itemName, comments)
    {
      var content := lines[index];
      FlagStep(isSpace, lines, index);
      PendingStep(isSpace, lines, index, commentLine);
      ParsedStep(isSpace, lines, index, itemName, comments, commentLine + [index]);
      var notComment := !IsComment(isSpace, content);
      if HasSection(content) && notComment {
        flag := IsNeeded(Section(content));
      }
      if flag {
        commentLine := commentLine + [index];
        if notComment {
          if content != "\n" && content != "\r\n" {
            itemName := itemName[index := ItemName(isSpace, content)];
            comments := comments[index := commentLine];
            commentLine := [];
          }
        }
      }
      index := index + 1;
    }
  }

  lemma ParseStart(isSpace: char -> bool, lines: Lines)
    ensures IsPending(isSpace, lines, 0, [])
    ensures Parsed(isSpace, lines, 0, map[], map[])
  {
  }

  // ----- Cleaning

  /** The lines among the first n whose number is not in the list, in order. */
  function LinesWithout(lines: Lines, removed: seq<nat>, n: nat): Lines
    requires n <= |lines|
  {
    if n == 0 then [] else LinesWithout(lines, removed, n - 1) + if n - 1 in removed then [] else [lines[n - 1]]
  }

  /** Clean: `unused` are the keys of UnUseDict. */
  method Clean(lines: Lines, unused: seq<nat>, comments: map<nat, seq<nat>>) returns (kept: Lines, removed: seq<nat>)
    ensures forall j :: j in removed <==> exists t :: t in unused && t in comments && j in comments[t]
    ensures kept == LinesWithout(lines, removed, |lines|)
  {
    removed := [];
    for k := 0 to |unused|
      invariant forall j :: j in removed <==> exists t :: t in unused[..k] && t in comments && j in comments[t]
    {
      ghost var before := removed;
      assert unused[..k + 1] == unused[..k] + [unused[k]];
      if unused[k] in comments {
        removed := removed + comments[unused[k]];
      }
      forall j ensures j in removed <==> exists t :: t in unused[..k + 1] && t in comments && j in comments[t] {
        if j in before {
          var t :| t in unused[..k] && t in comments && j in comments[t];
          assert t in unused[..k + 1];
        }
      }
    }
    assert unused[..|unused|] == unused;
    kept := [];
    for linenum := 0 to |lines|
      invariant kept == LinesWithout(lines, removed, linenum)
    {
      if linenum in removed {
        continue;
      }
      kept := kept + [lines[linenum]];
    }
  }

  /** Line j goes exactly when the item that owns it is unused. */
  ghost predicate Goes(isSpace: char -> bool, lines: Lines, isUsed: string -> bool, j: nat)
    requires j < |lines|
  {
    exists t :: 0 <= t < |lines| && Owns(isSpace, lines, t, j) && !isUsed(ItemName(isSpace, lines[t]))
  }

  /** The lines that stay, in order. */
  ghost function Remaining(isSpace: char -> bool, lines: Lines, isUsed: string -> bool, n: nat): Lines
    requires n <= |lines|
  {
    if n == 0 then []
    else Remaining(isSpace, lines, isUsed, n - 1) + if Goes(isSpace, lines, isUsed, n - 1) then [] else [lines[n - 1]]
  }

  lemma {:induction false} RemainingIs(isSpace: char -> bool, lines: Lines, isUsed: string -> bool, removed: seq<nat>, n: nat)
    requires n <= |lines|
    requires forall j :: 0 <= j < |lines| ==> (j in removed <==> Goes(isSpace, lines, isUsed, j))
    ensures LinesWithout(lines, removed, n) == Remaining(isSpace, lines, isUsed, n)
    decreases n
  {
    hide Goes;
    if n > 0 {
      RemainingIs(isSpace, lines, isUsed, removed, n - 1);
    }
  }

  /** The items that nothing references. */
  method FindUnused(lines: Lines, itemName: map<nat, string>, isUsed: string -> bool) returns (unused: seq<nat>)
    ensures forall u :: u in unused <==> 0 <= u < |lines| && u in itemName && !isUsed(itemName[u])
  {
    unused := [];
    for t := 0 to |lines|
      invariant forall u :: u in unused <==> 0 <= u < t && u in itemName && !isUsed(itemName[u])
    {
      if t in itemName && !isUsed(itemName[t]) {
        unused := unused + [t];
      }
    }
  }

  /**
   DetectNotUsedItem followed by Clean, with the search for references abstracted to
   `isUsed`: exactly the lines owned by unused items go. Lines of other sections, lines owned
   by used items and comments behind the last item all stay, in order.
   */
  method DetectAndClean(isSpace: char -> bool, lines: Lines, isUsed: string -> bool) returns (kept: Lines)
    ensures kept == Remaining(isSpace, lines, isUsed, |lines|)
  {
    hide Parsed, Goes, LinesWithout, Remaining;
    var itemName, comments := ParseDecContent(isSpace, lines);
    var unused := FindUnused(lines, itemName, isUsed);
    var removed;
    kept, removed := Clean(lines, unused, comments);
    forall j | 0 <= j < |lines| ensures j in removed <==> Goes(isSpace, lines, isUsed, j) {
      RemovedIffGoes(isSpace, lines, isUsed, itemName, comments, unused, removed, j);
    }
    RemainingIs(isSpace, lines, isUsed, removed, |lines|);
  }

  /** Clean names a line exactly when the item that owns it is unused. */
  lemma RemovedIffGoes(isSpace: char -> bool, lines: Lines, isUsed: string -> bool,
                       names: map<nat, string>, comments: map<nat, seq<nat>>, unused: seq<nat>, removed: seq<nat>, j: nat)
    requires j < |lines| && Parsed(isSpace, lines, |lines|, names, comments)
    requires forall u :: u in unused <==> 0 <= u < |lines| && u in names && !isUsed(names[u])
    requires forall k :: k in removed <==> exists t :: t in unused && t in comments && k in comments[t]
    ensures j in removed <==> Goes(isSpace, lines, isUsed, j)
  {
    hide ItemName, Owns, IsItem, InNeededSection;
    if Goes(isSpace, lines, isUsed, j) {
      var t :| 0 <= t < |lines| && Owns(isSpace, lines, t, j) && !isUsed(ItemName(isSpace, lines[t]));
      OwnedIsListed(isSpace, lines, names, comments, t, j);
      assert t in unused && t in comments && j in comments[t];
    }
    if j in removed {
      var t :| t in unused && t in comments && j in comments[t];
      assert Owns(isSpace, lines, t, j);
    }
  }

  lemma OwnedIsListed(isSpace: char -> bool, lines: Lines, names: map<nat, string>, comments: map<nat, seq<nat>>,
                      t: nat, j: nat)
    requires Parsed(isSpace, lines, |lines|, names, comments)
    requires t < |lines| && Owns(isSpace, lines, t, j)
    ensures t in names && j in comments[t]
  {
    hide IsItem, InNeededSection;
  }

  // ----- Items go with the comments above them

  /** A comment or an empty line. */
  predicate IsFiller(isSpace: char -> bool, l: string) { IsComment(isSpace, l) || IsEmptyLine(l) }

  lemma {:induction false} SameSection(isSpace: char -> bool, lines: Lines, a: nat, j: nat)
    requires a <= j < |lines| && InNeededSection(isSpace, lines, a)
    requires forall k :: a < k <= j ==> !IsHeader(isSpace, lines[k])
    ensures InNeededSection(isSpace, lines, j)
  {
    hide HasSection, IsComment, IsNeeded, Section;
    var h :| 0 <= h <= a && IsHeader(isSpace, lines[h]) && IsNeeded(Section(lines[h])) &&
             forall k :: h < k <= a ==> !IsHeader(isSpace, lines[k]);
    assert forall k :: h < k <= j ==> !IsHeader(isSpace, lines[k]);
  }

  /**
   In a section that is looked at, an item and the comments and empty lines above it, up to the
   item before, go together or stay together: they go exactly when the item's name is not used.
   */
  lemma BlockGoesTogether(isSpace: char -> bool, lines: Lines, isUsed: string -> bool, a: nat, t: nat, j: nat)
    requires a <= j <= t < |lines| && InNeededSection(isSpace, lines, a)
    requires forall k :: a <= k < t ==> IsFiller(isSpace, lines[k])
    requires !IsFiller(isSpace, lines[t]) && forall k :: a < k <= t ==> !IsHeader(isSpace, lines[k])
    ensures Goes(isSpace, lines, isUsed, j) <==> !isUsed(ItemName(isSpace, lines[t]))
  {
    hide InNeededSection, IsComment, IsHeader, ItemName;
    SameSection(isSpace, lines, a, j);
    SameSection(isSpace, lines, a, t);
    assert Owns(isSpace, lines, t, j);
    if Goes(isSpace, lines, isUsed, j) {
      var u :| 0 <= u < |lines| && Owns(isSpace, lines, u, j) && !isUsed(ItemName(isSpace, lines[u]));
      OwnerIsUnique(isSpace, lines, t, u, j);
    }
  }

  /** Lines of other sections stay, and so do comments and empty lines behind the last item. */
  lemma OthersStay(isSpace: char -> bool, lines: Lines, isUsed: string -> bool, j: nat)
    requires j < |lines|
    ensures !InNeededSection(isSpace, lines, j) ==> !Goes(isSpace, lines, isUsed, j)
    ensures (forall k :: j <= k < |lines| ==> IsFiller(isSpace, lines[k])) ==> !Goes(isSpace, lines, isUsed, j)
  {
    hide InNeededSection, IsComment, ItemName;
  }

  /** How many of the first n lines stay. */
  ghost function Stayed(isSpace: char -> bool, lines: Lines, isUsed: string -> bool, n: nat): nat
    requires n <= |lines|
  {
    if n == 0 then 0
    else Stayed(isSpace, lines, isUsed, n - 1) + if Goes(isSpace, lines, isUsed, n - 1) then 0 else 1
  }

  /** The cleaned file: each line that stays is found behind those that stay before it, and there is nothing else. */
  lemma {:induction false} StaysInOrder(isSpace: char -> bool, lines: Lines, isUsed: string -> bool, n: nat, j: nat)
    requires j < n <= |lines|
    ensures |Remaining(isSpace, lines, isUsed, n)| == Stayed(isSpace, lines, isUsed, n)
    ensures !Goes(isSpace, lines, isUsed, j) ==>
              var r := Stayed(isSpace, lines, isUsed, j);
              r < |Remaining(isSpace, lines, isUsed, n)| && Remaining(isSpace, lines, isUsed, n)[r] == lines[j]
    decreases n
  {
    hide Goes;
    if j < n - 1 {
      StaysInOrder(isSpace, lines, isUsed, n - 1, j);
    } else {
      RemainingLength(isSpace, lines, isUsed, j);
    }
  }

  lemma {:induction false} RemainingLength(isSpace: char -> bool, lines: Lines, isUsed: string -> bool, n: nat)
    requires n <= |lines|
    ensures |Remaining(isSpace, lines, isUsed, n)| == Stayed(isSpace, lines, isUsed, n)
    decreases n
  {
    hide Goes;
    if n > 0 {
      RemainingLength(isSpace, lines, isUsed, n - 1);
    }
  }

  // ----- Sections after cleaning

  /** The header whose section holds line n - 1: the last one among the first n lines, or -1. */
  function HeaderOf(isSpace: char -> bool, lines: Lines, n: nat): (h: int)
    requires n <= |lines|
    ensures -1 <= h < n
    ensures 0 <= h ==> IsHeader(isSpace, lines[h])
    ensures forall k :: h < k < n ==> !IsHeader(isSpace, lines[k])
  {
    if n == 0 then -1 else if IsHeader(isSpace, lines[n - 1]) then n - 1 else HeaderOf(isSpace, lines, n - 1)
  }

  /** The last header among the first n lines that is still there after cleaning. */
  ghost function KeptHeaderOf(isSpace: char -> bool, lines: Lines, isUsed: string -> bool, n: nat): (h: int)
    requires n <= |lines|
    ensures -1 <= h < n
    ensures 0 <= h ==> IsHeader(isSpace, lines[h]) && !Goes(isSpace, lines, isUsed, h)
    ensures forall k :: h < k < n && IsHeader(isSpace, lines[k]) ==> Goes(isSpace, lines, isUsed, k)
  {
    hide IsHeader, Goes;
    if n == 0 then -1
    else if IsHeader(isSpace, lines[n - 1]) && !Goes(isSpace, lines, isUsed, n - 1) then n - 1
    else KeptHeaderOf(isSpace, lines, isUsed, n - 1)
  }

  lemma EmptyLineHasNoSection(l: string)
    requires IsEmptyLine(l)
    ensures !HasSection(l)
  {
    NoOpen(l);
  }

  lemma {:induction false} NoOpen(l: string)
    requires '[' !in l
    ensures FirstOpen(l) == |l|
  {
    if l != "" {
      NoOpen(l[1..]);
    }
  }

  /** A header is an item of its own section, so it goes exactly when its own text is not matched. */
  lemma HeaderGoesIff(isSpace: char -> bool, lines: Lines, isUsed: string -> bool, h: nat)
    requires h < |lines| && IsHeader(isSpace, lines[h])
    ensures Goes(isSpace, lines, isUsed, h)
            <==> IsNeeded(Section(lines[h])) && !isUsed(ItemName(isSpace, lines[h]))
  {
    hide HasSection, IsComment, IsNeeded, Section, ItemName, IsEmptyLine;
    if IsEmptyLine(lines[h]) {
      EmptyLineHasNoSection(lines[h]);
    }
    assert InNeededSection(isSpace, lines, h) <==> IsNeeded(Section(lines[h]));
    if IsNeeded(Section(lines[h])) {
      assert Owns(isSpace, lines, h, h);
      if Goes(isSpace, lines, isUsed, h) {
        var t :| 0 <= t < |lines| && Owns(isSpace, lines, t, h) && !isUsed(ItemName(isSpace, lines[t]));
        OwnerIsUnique(isSpace, lines, t, h, h);
      }
    }
  }

  /**
   A line that stays keeps its section if and only if it had none, the section is not looked at,
   or the text of the header counts as used. Otherwise the header goes, and the line falls into
   the section before.
   */
  lemma KeepsSectionIff(isSpace: char -> bool, lines: Lines, isUsed: string -> bool, j: nat)
    requires j < |lines| && !Goes(isSpace, lines, isUsed, j)
    ensures var h := HeaderOf(isSpace, lines, j + 1);
            KeptHeaderOf(isSpace, lines, isUsed, j + 1) == h <==>
            h < 0 || !IsNeeded(Section(lines[h])) || isUsed(ItemName(isSpace, lines[h]))
  {
    hide IsHeader, Goes, IsNeeded, Section, ItemName;
    var h, kept := HeaderOf(isSpace, lines, j + 1), KeptHeaderOf(isSpace, lines, isUsed, j + 1);
    if h >= 0 {
      HeaderGoesIff(isSpace, lines, isUsed, h);
    }
    assert kept <= h;
  }

  lemma SectionOfHeader(name: string)
    ensures HasSection("[" + name + "]\n") && Section("[" + name + "]\n") == name
  {
    var l := "[" + name + "]\n";
    assert l[..|l| - 1] == "[" + name + "]";
    assert LastClose(l[..|l| - 1]) == |l| - 2;
  }

  lemma NameOfPlainLine(isSpace: char -> bool, l: string)
    requires '=' !in l && '|' !in l && '#' !in l
    ensures ItemName(isSpace, l) == Strip(isSpace, l)
  {
    hide Strip, Before;
    BeforeAbsent(l, '=');
    BeforeAbsent(l, '|');
    BeforeAbsent(l, '#');
  }

  lemma NameOfItemLine(isSpace: char -> bool, name: string, value: string)
    requires '=' !in name && '|' !in name && '#' !in name
    ensures ItemName(isSpace, name + ['='] + value) == Strip(isSpace, name)
  {
    hide Strip, Before;
    BeforeFirst(name, '=', value);
    BeforeAbsent(name, '|');
    BeforeAbsent(name, '#');
  }

  const ONE_GUID: Lines := ["[Guids]\n", "gA = 1\n"]

  lemma OneGuidHeader(isSpace: char -> bool)
    requires isSpace('\n') && !isSpace('[') && !isSpace(']')
    ensures IsHeader(isSpace, ONE_GUID[0]) && IsNeeded(Section(ONE_GUID[0]))
    ensures ItemName(isSpace, ONE_GUID[0]) == "[Guids]"
  {
    hide Strip, HasSection, Section;
    var text := "[Guids]";
    assert ONE_GUID[0] == "[" + "Guids" + "]\n" == text + ['\n'];
    SectionOfHeader("Guids");
    assert SECTION_LIST[1] == "Guids" && Contains("Guids", "Guids");
    StripBehind(isSpace, text, '\n');
    NameOfPlainLine(isSpace, ONE_GUID[0]);
  }

  lemma OneGuidItem(isSpace: char -> bool)
    requires isSpace(' ') && !isSpace('g') && !isSpace('A')
    ensures !IsHeader(isSpace, ONE_GUID[1])
    ensures ItemName(isSpace, ONE_GUID[1]) == "gA"
  {
    hide Strip;
    NoOpen(ONE_GUID[1]);
    var name := "gA ";
    assert ONE_GUID[1] == name + ['='] + " 1\n";
    NameOfItemLine(isSpace, name, " 1\n");
    assert name == "gA" + [' '];
    StripBehind(isSpace, "gA", ' ');
  }

  /** A used GUID stays, but the header above it goes: no section is left for it. */
  lemma HeaderOfUsedItemGoes(isSpace: char -> bool, isUsed: string -> bool)
    requires isSpace(' ') && isSpace('\n') && !isSpace('[') && !isSpace(']') && !isSpace('g') && !isSpace('A')
    requires isUsed("gA") && !isUsed("[Guids]")
    ensures Remaining(isSpace, ONE_GUID, isUsed, 2) == [ONE_GUID[1]]
    ensures HeaderOf(isSpace, ONE_GUID, 2) == 0 && KeptHeaderOf(isSpace, ONE_GUID, isUsed, 2) == -1
  {
    hide IsHeader, IsNeeded, Section, ItemName, IsItem, InNeededSection;
    OneGuidHeader(isSpace);
    OneGuidItem(isSpace);
    HeaderGoesIff(isSpace, ONE_GUID, isUsed, 0);
    forall t | 0 <= t < 2 && Owns(isSpace, ONE_GUID, t, 1) ensures isUsed(ItemName(isSpace, ONE_GUID[t])) {
      assert t == 1;
    }
    assert !Goes(isSpace, ONE_GUID, isUsed, 1);
    assert Remaining(isSpace, ONE_GUID, isUsed, 1) == [];
    KeepsSectionIff(isSpace, ONE_GUID, isUsed, 1);
  }
}
