/**
 The Python string operations the scripts use. Which characters are white space is left open
 as a parameter, so that every statement holds for Python's Unicode notion of it.
 */
module PyStrings {

  /** s.rstrip() */
  function RStrip(isSpace: char -> bool, s: string): string {
    if s != "" && isSpace(s[|s| - 1]) then RStrip(isSpace, s[..|s| - 1]) else s
  }

  function LStrip(isSpace: char -> bool, s: string): string {
    if s != "" && isSpace(s[0]) then LStrip(isSpace, s[1..]) else s
  }

  /** s.strip() */
  function Strip(isSpace: char -> bool, s: string): string {
    LStrip(isSpace, RStrip(isSpace, s))
  }

  /** len(s.rstrip()) == 0 */
  predicate Blank(isSpace: char -> bool, s: string) {
    forall c :: c in s ==> isSpace(c)
  }

  lemma {:induction false} RStripBlank(isSpace: char -> bool, s: string)
    ensures |RStrip(isSpace, s)| <= |s|
    ensures RStrip(isSpace, s) == "" <==> Blank(isSpace, s)
    ensures |RStrip(isSpace, s)| < |s| <==> s != "" && isSpace(s[|s| - 1])
  {
    if s != "" {
      assert s == s[..|s| - 1] + [s[|s| - 1]];
      RStripBlank(isSpace, s[..|s| - 1]);
    }
  }

  /** s.endswith(suffix) */
  predicate EndsWith(s: string, suffix: string) {
    |suffix| <= |s| && s[|s| - |suffix|..] == suffix
  }

  /** part in s */
  predicate Contains(s: string, part: string) {
    part <= s || (s != "" && Contains(s[1..], part))
  }

  /** s.split(c)[0] */
  function Before(s: string, c: char): string {
    if s == "" || s[0] == c then "" else [s[0]] + Before(s[1..], c)
  }

  lemma {:induction false} BeforeAbsent(s: string, c: char)
    requires c !in s
    ensures Before(s, c) == s
  {
    if s != "" {
      BeforeAbsent(s[1..], c);
    }
  }

  lemma {:induction false} BeforeFirst(s: string, c: char, t: string)
    requires c !in s
    ensures Before(s + [c] + t, c) == s
    decreases |s|
  {
    if s != "" {
      assert (s + [c] + t)[1..] == s[1..] + [c] + t;
      BeforeFirst(s[1..], c, t);
    }
  }

  /** White space behind and none in front: strip() cuts off what is behind. */
  lemma {:induction false} StripBehind(isSpace: char -> bool, s: string, c: char)
    requires isSpace(c) && s != "" && !isSpace(s[0]) && !isSpace(s[|s| - 1])
    ensures Strip(isSpace, s + [c]) == s
  {
    assert (s + [c])[..|s|] == s;
    assert RStrip(isSpace, s) == s;
  }

  lemma {:induction false} BeforeThrough(a: string, t: string, c: char)
    requires c !in a
    ensures Before(a + t, c) == a + Before(t, c)
    decreases |a|
  {
    if a == "" {
      assert a + t == t;
    } else {
      assert (a + t)[1..] == a[1..] + t;
      BeforeThrough(a[1..], t, c);
    }
  }

  lemma {:induction false} RStripPad(isSpace: char -> bool, s: string, pad: string)
    requires Blank(isSpace, pad) && s != "" && !isSpace(s[|s| - 1])
    ensures RStrip(isSpace, s + pad) == s
    decreases |pad|
  {
    if pad == "" {
      assert s + pad == s;
    } else {
      var n := |pad| - 1;
      assert pad[n] in pad && forall c :: c in pad[..n] ==> c in pad;
      assert (s + pad)[..|s| + n] == s + pad[..n];
      RStripPad(isSpace, s, pad[..n]);
    }
  }

  lemma {:induction false} LStripPad(isSpace: char -> bool, pad: string, s: string)
    requires Blank(isSpace, pad) && s != "" && !isSpace(s[0])
    ensures LStrip(isSpace, pad + s) == s
    decreases |pad|
  {
    if pad == "" {
      assert pad + s == s;
    } else {
      assert pad[0] in pad && forall c :: c in pad[1..] ==> c in pad;
      assert (pad + s)[1..] == pad[1..] + s;
      LStripPad(isSpace, pad[1..], s);
    }
  }

  /** strip() takes off exactly the white space around a text. */
  lemma StripPads(isSpace: char -> bool, left: string, s: string, right: string)
    requires Blank(isSpace, left) && Blank(isSpace, right)
    requires s != "" && !isSpace(s[0]) && !isSpace(s[|s| - 1])
    ensures Strip(isSpace, left + s + right) == s
  {
    RStripPad(isSpace, left + s, right);
    LStripPad(isSpace, left, s);
  }

  function LowerChar(c: char): char {
    if 'A' <= c <= 'Z' then (c as int + 32) as char
    else if c == '\U{212A}' then 'k'   // KELVIN SIGN
    else c
  }

  /** s.lower(), as far as an ASCII text can come out of it */
  function Lower(s: string): string {
    seq(|s|, i requires 0 <= i < |s| => LowerChar(s[i]))
  }

  /** s.split()[0] of a text that does not start with white space */
  function FirstWord(isSpace: char -> bool, s: string): string {
    if s == "" || isSpace(s[0]) then "" else [s[0]] + FirstWord(isSpace, s[1..])
  }

  /** ' ' * n */
  function Spaces(n: nat): (s: string)
    ensures |s| == n
  {
    seq(n, i requires 0 <= i < n => ' ')
  }

  /** s.replace(find, replacement) for a non-empty pattern: leftmost, non-overlapping. */
  function Replace(s: string, find: string, replacement: string): string
    requires find != ""
  {
    if s == "" then ""
    else if find <= s then replacement + Replace(s[|find|..], find, replacement)
    else [s[0]] + Replace(s[1..], find, replacement)
  }
}
