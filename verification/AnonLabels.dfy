/**
 Anonymous labels in ConvertMasmToNasm.py: MASM's "@@:" with its "@b" and "@f" references
 becomes NASM's numbered local labels. The translation keeps every jump target, as long as
 NASM's scoping of local labels lets it.
 */
module AnonLabels {
  import PyStrings

  // ----- Label names

  function Digit(d: nat): char
    requires d < 10
  {
    (d + '0' as int) as char
  }

  function Digits(n: nat): (s: string)
    ensures s != "" && forall c :: c in s ==> '0' <= c <= '9'
  {
    if n < 10 then [Digit(n)] else Digits(n / 10) + [Digit(n % 10)]
  }

  /** '%d' % n */
  function Decimal(n: int): string {
    if n < 0 then "-" + Digits(-n) else Digits(n)
  }

  /** anonLabel */
  function Label(count: int): string {
    "." + Decimal(count)
  }

  lemma {:induction false} DigitsInjective(a: nat, b: nat)
    requires Digits(a) == Digits(b)
    ensures a == b
    decreases a
  {
    var s, t := Digits(a), Digits(b);
    if a < 10 || b < 10 {
      assert |s| == 1 && |t| == 1;
      assert a < 10 && b < 10 by {
        assert a >= 10 ==> |s| > 1;
        assert b >= 10 ==> |t| > 1;
      }
      assert s[0] == Digit(a) && t[0] == Digit(b);
    } else {
      assert s[|s| - 1] == Digit(a % 10) && t[|t| - 1] == Digit(b % 10);
      assert s[..|s| - 1] == Digits(a / 10) && t[..|t| - 1] == Digits(b / 10);
      DigitsInjective(a / 10, b / 10);
    }
  }

  lemma SignOfDecimal(n: int)
    ensures Decimal(n) != "" && (Decimal(n)[0] == '-' <==> n < 0)
  {
    hide Digits;
    if n >= 0 {
      assert Digits(n)[0] in Digits(n);
    }
  }

  lemma LabelInjective(a: int, b: int)
    requires Label(a) == Label(b)
    ensures a == b
  {
    hide Digits;
    assert Decimal(a) == Label(a)[1..] == Label(b)[1..] == Decimal(b);
    SignOfDecimal(a);
    SignOfDecimal(b);
    if a < 0 && b < 0 {
      assert Digits(-a) == Decimal(a)[1..] == Decimal(b)[1..] == Digits(-b);
      DigitsInjective(-a, -b);
    } else if 0 <= a && 0 <= b {
      DigitsInjective(a, b);
    }
  }

  // ----- Rewriting the references in one line

  /** ConvertAnonymousLabels: four replacement passes. */
  function ConvertAnonymousLabels(asm: string, anonLabelCount: int): string {
    var back, forward := Label(anonLabelCount), Label(anonLabelCount + 1);
    PyStrings.Replace(PyStrings.Replace(PyStrings.Replace(PyStrings.Replace(asm, "@b", back), "@B", back), "@f", forward), "@F", forward)
  }

  /** Replaces '@' followed by a key of the map, in one pass. */
  function Subst(s: string, m: map<char, string>): string {
    if s == "" then ""
    else if |s| >= 2 && s[0] == '@' && s[1] in m then m[s[1]] + Subst(s[2..], m)
    else [s[0]] + Subst(s[1..], m)
  }

  lemma {:induction false} ReplaceIsSubst(s: string, c: char, r: string)
    ensures PyStrings.Replace(s, ['@', c], r) == Subst(s, map[c := r])
    decreases |s|
  {
    if s != "" {
      assert ['@', c] <= s <==> |s| >= 2 && s[0] == '@' && s[1] in map[c := r] by {
        if |s| >= 2 {
          assert s[..2] == [s[0], s[1]];
        }
      }
      if ['@', c] <= s {
        ReplaceIsSubst(s[2..], c, r);
      } else {
        ReplaceIsSubst(s[1..], c, r);
      }
    }
  }

  /** Replacement texts are label names: they start with '.' and hold no '@'. */
  ghost predicate PlainValues(m: map<char, string>) {
    forall c :: c in m ==> m[c] != "" && m[c][0] == '.' && '@' !in m[c]
  }

  lemma {:induction false} SubstPlain(r: string, t: string, m: map<char, string>)
    requires '@' !in r
    ensures Subst(r + t, m) == r + Subst(t, m)
    decreases |r|
  {
    if r == "" {
      assert r + t == t;
    } else {
      assert (r + t)[1..] == r[1..] + t;
      SubstPlain(r[1..], t, m);
    }
  }

  /** Passes over different references do not disturb each other. */
  lemma {:induction false} SubstTwice(s: string, m: map<char, string>, n: map<char, string>)
    requires m.Keys !! n.Keys && PlainValues(m)
    requires '@' !in m && '@' !in n && '.' !in n
    ensures Subst(Subst(s, m), n) == Subst(s, m + n)
    decreases |s|
  {
    if s != "" {
      if |s| >= 2 && s[0] == '@' && s[1] in m {
        SubstPlain(m[s[1]], Subst(s[2..], m), n);
        SubstTwice(s[2..], m, n);
      } else if |s| >= 2 && s[0] == '@' && s[1] in n {
        assert s[1..][1..] == s[2..];
        assert Subst(s[1..], m) == [s[1]] + Subst(s[2..], m);
        var t := Subst(s, m);
        assert t == ['@', s[1]] + Subst(s[2..], m);
        assert t[2..] == Subst(s[2..], m);
        SubstTwice(s[2..], m, n);
      } else {
        SubstTwice(s[1..], m, n);
        var t := Subst(s, m);
        assert t[1..] == Subst(s[1..], m);
        if s[0] == '@' && |s| >= 2 {
          SubstHead(s[1..], m);
          assert t[1] !in n;
        }
      }
    }
  }

  lemma SubstHead(s: string, m: map<char, string>)
    requires s != "" && PlainValues(m)
    ensures Subst(s, m) != "" && Subst(s, m)[0] in [s[0], '.']
  {
  }

  /** What the letter behind '@' stands for. */
  function References(back: string, forward: string): map<char, string> {
    map['b' := back, 'B' := back, 'f' := forward, 'F' := forward]
  }

  lemma LabelsArePlain(count: int)
    ensures Label(count) != "" && Label(count)[0] == '.' && '@' !in Label(count)
  {
    hide Digits;
  }

  /**
   The four passes do what one pass would: each '@' followed by a reference letter becomes the
   current label or the next one, wherever in the line it stands.
   */
  lemma FourPassesAreOne(asm: string, count: int)
    ensures ConvertAnonymousLabels(asm, count) == Subst(asm, References(Label(count), Label(count + 1)))
  {
    hide Label, Subst;
    var back, forward := Label(count), Label(count + 1);
    LabelsArePlain(count);
    LabelsArePlain(count + 1);
    var b, ub, f, uf := map['b' := back], map['B' := back], map['f' := forward], map['F' := forward];
    ReplaceIsSubst(asm, 'b', back);
    ReplaceIsSubst(Subst(asm, b), 'B', back);
    SubstTwice(asm, b, ub);
    ReplaceIsSubst(Subst(asm, b + ub), 'f', forward);
    SubstTwice(asm, b + ub, f);
    ReplaceIsSubst(Subst(asm, b + ub + f), 'F', forward);
    SubstTwice(asm, b + ub + f, uf);
    assert b + ub + f + uf == References(back, forward);
  }

  // ----- References as whole identifiers

  /** [\w@]; which characters \w stands for is left open. */
  predicate IsIdentifierChar(isWord: char -> bool, c: char) {
    isWord(c) || c == '@'
  }

  /** The length of the longest identifier that s starts with. */
  function IdentifierLength(isWord: char -> bool, s: string): (n: nat)
    ensures n <= |s|
    ensures forall i :: 0 <= i < n ==> IsIdentifierChar(isWord, s[i])
    ensures n < |s| ==> !IsIdentifierChar(isWord, s[n])
  {
    if s == "" || !IsIdentifierChar(isWord, s[0]) then 0 else 1 + IdentifierLength(isWord, s[1..])
  }

  /** The first identifier of the line, or its first character when that begins none. */
  function PieceLength(isWord: char -> bool, s: string): (n: nat)
    requires s != ""
    ensures 1 <= n <= |s|
  {
    var n := IdentifierLength(isWord, s);
    if n == 0 then 1 else n
  }

  /** The line cut into its longest identifiers and the single characters around them. */
  function Pieces(isWord: char -> bool, s: string): seq<string>
    decreases |s|
  {
    if s == "" then []
    else
      var n := PieceLength(isWord, s);
      [s[..n]] + Pieces(isWord, s[n..])
  }

  /** A reference is a whole identifier: "@b" or "@B" back, "@f" or "@F" forward. */
  function TranslatePiece(w: string, back: string, forward: string): string {
    if w == "@b" || w == "@B" then back
    else if w == "@f" || w == "@F" then forward
    else w
  }

  function TranslatePieces(pieces: seq<string>, back: string, forward: string): string {
    if pieces == [] then ""
    else TranslatePiece(pieces[0], back, forward) + TranslatePieces(pieces[1..], back, forward)
  }

  /** '@' followed by b, B, f or F stands somewhere in w. */
  predicate HoldsReference(w: string) {
    |w| >= 2 && ((w[0] == '@' && w[1] in "bBfF") || HoldsReference(w[1..]))
  }

  lemma SubstStep(s: string, m: map<char, string>)
    requires s != ""
    ensures |s| >= 2 && s[0] == '@' && s[1] in m ==> Subst(s, m) == m[s[1]] + Subst(s[2..], m)
    ensures !(|s| >= 2 && s[0] == '@' && s[1] in m) ==> Subst(s, m) == [s[0]] + Subst(s[1..], m)
  {
  }

  lemma {:induction false} SubstConcat(w: string, t: string, m: map<char, string>)
    requires w == "" || t == "" || w[|w| - 1] != '@' || t[0] !in m
    ensures Subst(w + t, m) == Subst(w, m) + Subst(t, m)
    decreases |w|
  {
    hide Subst;
    if w == "" {
      SubstOfEmpty(m);
      assert w + t == t;
    } else {
      SubstStep(w, m);
      SubstStep(w + t, m);
      if |w| >= 2 && w[0] == '@' && w[1] in m {
        assert (w + t)[2..] == w[2..] + t;
        SubstConcat(w[2..], t, m);
        assert m[w[1]] + (Subst(w[2..], m) + Subst(t, m)) == m[w[1]] + Subst(w[2..], m) + Subst(t, m);
      } else {
        assert (w + t)[1..] == w[1..] + t;
        SubstConcat(w[1..], t, m);
        assert [w[0]] + (Subst(w[1..], m) + Subst(t, m)) == [w[0]] + Subst(w[1..], m) + Subst(t, m);
      }
    }
  }

  lemma {:induction false} SubstOfOther(w: string, back: string, forward: string)
    requires !HoldsReference(w)
    ensures Subst(w, References(back, forward)) == w
    decreases |w|
  {
    if w != "" {
      SubstOfOther(w[1..], back, forward);
    }
  }

  /** The '@' of the first occurrence is gone for good: a '.' stands in its place. */
  lemma {:induction false} SubstDiffers(w: string, back: string, forward: string, x: string, y: string)
    requires HoldsReference(w) && PlainValues(References(back, forward))
    ensures Subst(w, References(back, forward)) + x != w + y
    decreases |w|
  {
    var m := References(back, forward);
    if w[0] == '@' && w[1] in m {
      assert (Subst(w, m) + x)[0] == '.' && (w + y)[0] == '@';
    } else {
      SubstDiffers(w[1..], back, forward, x, y);
      assert (Subst(w, m) + x)[1..] == Subst(w[1..], m) + x;
      assert (w + y)[1..] == w[1..] + y;
    }
  }

  lemma SubstOfReference(w: string, back: string, forward: string)
    requires |w| == 2 && HoldsReference(w)
    ensures Subst(w, References(back, forward)) == TranslatePiece(w, back, forward)
  {
    assert w == [w[0], w[1]];
  }

  /** One piece of the line. */
  lemma SubstOfPiece(w: string, back: string, forward: string)
    requires |w| <= 2 || !HoldsReference(w)
    ensures Subst(w, References(back, forward)) == TranslatePiece(w, back, forward)
  {
    hide Subst;
    if HoldsReference(w) {
      SubstOfReference(w, back, forward);
    } else {
      SubstOfOther(w, back, forward);
      assert w != "@b" && w != "@B" && w != "@f" && w != "@F";
    }
  }

  lemma SubstAtPiece(isWord: char -> bool, s: string, m: map<char, string>)
    requires s != "" && forall c :: c in m ==> isWord(c)
    ensures var n := PieceLength(isWord, s); Subst(s, m) == Subst(s[..n], m) + Subst(s[n..], m)
  {
    hide Subst;
    var n := PieceLength(isWord, s);
    assert s == s[..n] + s[n..];
    SubstConcat(s[..n], s[n..], m);
  }

  lemma {:induction false} SubstIsTranslationIff(isWord: char -> bool, s: string, back: string, forward: string)
    requires forall c :: c in "bBfF" ==> isWord(c)
    requires PlainValues(References(back, forward))
    ensures Subst(s, References(back, forward)) == TranslatePieces(Pieces(isWord, s), back, forward)
            <==> forall w :: w in Pieces(isWord, s) && |w| > 2 ==> !HoldsReference(w)
    decreases |s|
  {
    hide Subst, HoldsReference, TranslatePiece, PieceLength, PlainValues;
    if s != "" {
      var m, n := References(back, forward), PieceLength(isWord, s);
      var w, t := s[..n], s[n..];
      assert forall c :: c in m ==> c in "bBfF";
      SubstAtPiece(isWord, s, m);
      SubstIsTranslationIff(isWord, t, back, forward);
      var rest := TranslatePieces(Pieces(isWord, t), back, forward);
      assert Pieces(isWord, s)[1..] == Pieces(isWord, t);
      if |w| > 2 && HoldsReference(w) {
        SubstDiffers(w, back, forward, Subst(t, m), rest);
        LongPieceIsKept(w, back, forward);
        assert w in Pieces(isWord, s);
      } else {
        SubstOfPiece(w, back, forward);
        var w' := TranslatePiece(w, back, forward);
        assert (w' + Subst(t, m))[|w'|..] == Subst(t, m);
        assert (w' + rest)[|w'|..] == rest;
        assert forall v :: v in Pieces(isWord, s) ==> v == w || v in Pieces(isWord, t);
        assert forall v :: v in Pieces(isWord, t) ==> v in Pieces(isWord, s);
      }
    } else {
      SubstOfEmpty(References(back, forward));
    }
  }

  lemma SubstOfEmpty(m: map<char, string>)
    ensures Subst("", m) == ""
  {
  }

  lemma LongPieceIsKept(w: string, back: string, forward: string)
    requires |w| > 2
    ensures TranslatePiece(w, back, forward) == w
  {
  }

  /**
   The passes translate the references of the line and nothing else if and only if no longer
   identifier holds '@' followed by one of the four letters.
   */
  lemma ConvertsReferencesIff(isWord: char -> bool, asm: string, count: int)
    requires forall c :: c in "bBfF" ==> isWord(c)
    ensures ConvertAnonymousLabels(asm, count)
            == TranslatePieces(Pieces(isWord, asm), Label(count), Label(count + 1))
            <==> forall w :: w in Pieces(isWord, asm) && |w| > 2 ==> !HoldsReference(w)
  {
    hide Label, Subst, Pieces, TranslatePieces, ConvertAnonymousLabels;
    FourPassesAreOne(asm, count);
    LabelsArePlain(count);
    LabelsArePlain(count + 1);
    SubstIsTranslationIff(isWord, asm, Label(count), Label(count + 1));
  }

  /** The identifier "@base" loses its first two characters to a label. */
  lemma CutsIdentifier(isWord: char -> bool)
    requires forall c :: c in "bBfFase" ==> isWord(c)
    ensures ConvertAnonymousLabels("@base", 0) == ".0ase"
    ensures TranslatePieces(Pieces(isWord, "@base"), Label(0), Label(1)) == "@base"
  {
    hide Subst, ConvertAnonymousLabels, Pieces, TranslatePieces, Label;
    FourPassesAreOne("@base", 0);
    FirstLabel();
    BaseIsCut(Label(0), Label(1));
    BaseIsOnePiece(isWord);
    OnePiece("@base", Label(0), Label(1));
  }

  lemma FirstLabel()
    ensures Label(0) == ".0"
  {
  }

  lemma BaseIsCut(back: string, forward: string)
    ensures Subst("@base", References(back, forward)) == back + "ase"
  {
    hide Subst;
    assert "@base"[2..] == "ase";
    assert "ase"[0] == 'a' && "ase"[1] == 's';
    assert !HoldsReference("ase");
    SubstOfOther("ase", back, forward);
    SubstStep("@base", References(back, forward));
  }

  lemma BaseIsOnePiece(isWord: char -> bool)
    requires forall c :: c in "bBfFase" ==> isWord(c)
    ensures Pieces(isWord, "@base") == ["@base"]
  {
    hide IdentifierLength;
    var s := "@base";
    assert forall i :: 1 <= i < |s| ==> s[i] in "bBfFase";
    assert IdentifierLength(isWord, s) == 5;
    assert s[..5] == s && s[5..] == "";
    assert Pieces(isWord, "") == [];
  }

  lemma OnePiece(w: string, back: string, forward: string)
    requires |w| > 2
    ensures TranslatePieces([w], back, forward) == w
  {
    assert [w][1..] == [];
    assert w + "" == w;
  }

  // ----- Whole files

  /** A line as the translation sees it: "@@:", any other label, or code. */
  datatype Line = Anonymous | Named(name: string) | Code(asm: string)

  datatype Nasm = Local(name: string) | Global(name: string) | Instruction(asm: string)

  /** The number of anonymous labels before line i. */
  function Anons(lines: seq<Line>, i: nat): nat
    requires i <= |lines|
  {
    if i == 0 then 0 else Anons(lines, i - 1) + if lines[i - 1].Anonymous? then 1 else 0
  }

  function Translated(lines: seq<Line>, i: nat): Nasm
    requires i < |lines|
  {
    match lines[i]
    case Anonymous => Local(Label(Anons(lines, i)))
    case Named(name) => Global(name)
    case Code(asm) => Instruction(ConvertAnonymousLabels(asm, Anons(lines, i) - 1))
  }

  function Output(lines: seq<Line>): seq<Nasm> {
    seq(|lines|, i requires 0 <= i < |lines| => Translated(lines, i))
  }

  /** Convert, with its label counter that starts at -1. */
  method Convert(lines: seq<Line>) returns (output: seq<Nasm>)
    ensures output == Output(lines)
  {
    var anonLabelCount := -1;
    output := [];
    for i := 0 to |lines|
      invariant |output| == i
      invariant anonLabelCount == Anons(lines, i) - 1
      invariant forall k :: 0 <= k < i ==> output[k] == Translated(lines, k)
    {
      match lines[i] {
        case Anonymous =>
          anonLabelCount := anonLabelCount + 1;
          output := output + [Local(Label(anonLabelCount))];
        case Named(name) =>
          output := output + [Global(name)];
        case Code(asm) =>
          output := output + [Instruction(ConvertAnonymousLabels(asm, anonLabelCount))];
      }
    }
  }

  // ----- Jump targets

  /** MASM: the nearest anonymous label before, or after, line i. */
  ghost predicate BackTarget(lines: seq<Line>, i: nat, t: nat) {
    t < i <= |lines| && lines[t].Anonymous? && forall k :: t < k < i ==> !lines[k].Anonymous?
  }

  ghost predicate ForwardTarget(lines: seq<Line>, i: nat, t: nat) {
    i < t < |lines| && lines[t].Anonymous? && forall k :: i < k < t ==> !lines[k].Anonymous?
  }

  /** The last label before line i that is not anonymous. */
  function Scope(lines: seq<Line>, i: nat): int
    requires i <= |lines|
  {
    if i == 0 then -1 else if lines[i - 1].Named? then i - 1 else Scope(lines, i - 1)
  }

  /** NASM: a local label belongs to the last label before it that is not local. */
  function NasmScope(output: seq<Nasm>, i: nat): int
    requires i <= |output|
  {
    if i == 0 then -1 else if output[i - 1].Global? then i - 1 else NasmScope(output, i - 1)
  }

  /** NASM: line t of the output is what a reference to `name` from line i means. */
  ghost predicate Resolves(output: seq<Nasm>, i: nat, name: string, t: nat)
    requires i < |output|
  {
    t < |output| && output[t] == Local(name) && NasmScope(output, t) == NasmScope(output, i)
  }

  lemma {:induction false} SameScopes(lines: seq<Line>, i: nat)
    requires i <= |lines|
    ensures NasmScope(Output(lines), i) == Scope(lines, i)
    decreases i
  {
    hide Label, ConvertAnonymousLabels;
    if i > 0 {
      SameScopes(lines, i - 1);
    }
  }

  /** A named label is defined by the line that defined it before, and by no other. */
  lemma NamedLabelsStay(lines: seq<Line>, t: nat, name: string)
    requires t < |lines|
    ensures Output(lines)[t] == Global(name) <==> lines[t] == Named(name)
  {
    hide Label, ConvertAnonymousLabels;
  }

  ghost predicate NamedBetween(lines: seq<Line>, a: nat, b: nat)
    requires b <= |lines|
  {
    exists k :: a < k < b && lines[k].Named?
  }

  lemma {:induction false} AnonsMonotone(lines: seq<Line>, a: nat, b: nat)
    requires a <= b <= |lines|
    ensures Anons(lines, a) <= Anons(lines, b)
    ensures Anons(lines, a) == Anons(lines, b) <==> forall k :: a <= k < b ==> !lines[k].Anonymous?
    decreases b
  {
    if a < b {
      AnonsMonotone(lines, a, b - 1);
    }
  }

  lemma {:induction false} SameScopeIff(lines: seq<Line>, a: nat, b: nat)
    requires a <= b <= |lines|
    ensures Scope(lines, a) <= Scope(lines, b)
    ensures a < |lines| && !lines[a].Named? ==> (Scope(lines, a) == Scope(lines, b) <==> !NamedBetween(lines, a, b))
    ensures Scope(lines, a) < a
    decreases b
  {
    if a < b {
      SameScopeIff(lines, a, b - 1);
    } else if a > 0 {
      SameScopeIff(lines, a - 1, a - 1);
    }
  }

  /** Label numbers are unique: only one line defines a given number. */
  lemma UniqueNumber(lines: seq<Line>, t: nat, n: int)
    requires t < |lines|
    ensures Translated(lines, t) == Local(Label(n)) <==> lines[t].Anonymous? && Anons(lines, t) == n
  {
    hide Label, ConvertAnonymousLabels;
    if lines[t].Anonymous? && Label(Anons(lines, t)) == Label(n) {
      LabelInjective(Anons(lines, t), n);
    }
  }

  lemma OnlyOneAnonHasNumber(lines: seq<Line>, t: nat, u: nat)
    requires t < |lines| && u < |lines| && lines[t].Anonymous? && lines[u].Anonymous?
    ensures Anons(lines, t) == Anons(lines, u) <==> t == u
  {
    if t < u {
      AnonsMonotone(lines, t, u);
    } else if u < t {
      AnonsMonotone(lines, u, t);
    }
  }

  /**
   A back reference means, in NASM, the line it meant in MASM and no other, if no other label
   stands between the two; with a label between them it means nothing at all.
   */
  lemma BackReferenceIff(lines: seq<Line>, i: nat, target: nat, t: nat)
    requires i < |lines| && lines[i].Code? && BackTarget(lines, i, target)
    ensures Resolves(Output(lines), i, Label(Anons(lines, i) - 1), t) <==> t == target && !NamedBetween(lines, target, i)
  {
    hide Label, Translated;
    var n := Anons(lines, i) - 1;
    AnonsMonotone(lines, target + 1, i);
    assert Anons(lines, target) == n;
    UniqueNumber(lines, target, n);
    if t < |lines| {
      UniqueNumber(lines, t, n);
      if lines[t].Anonymous? {
        OnlyOneAnonHasNumber(lines, t, target);
      }
    }
    SameScopeIff(lines, target, i);
    SameScopes(lines, i);
    SameScopes(lines, target);
  }

  /** Of a procedure label between "@@:" and "jmp @b", and between "jmp @f" and "@@:". */
  lemma LabelBetweenHidesTarget(t: nat)
    ensures BackTarget([Anonymous, Named("f"), Code("jmp @b")], 2, 0)
    ensures !Resolves(Output([Anonymous, Named("f"), Code("jmp @b")]), 2, Label(0), t)
    ensures ForwardTarget([Code("jmp @f"), Named("f"), Anonymous], 0, 2)
    ensures !Resolves(Output([Code("jmp @f"), Named("f"), Anonymous]), 0, Label(0), t)
  {
    hide Label, Translated, Resolves;
    var back, forward := [Anonymous, Named("f"), Code("jmp @b")], [Code("jmp @f"), Named("f"), Anonymous];
    assert back[1].Named? && forward[1].Named?;
    assert Anons(back, 1) == 1 && Anons(back, 2) == 1;
    BackReferenceIff(back, 2, 0, t);
    ForwardReferenceIff(forward, 0, 2, t);
  }

  /** Likewise for a forward reference and the next anonymous label. */
  lemma ForwardReferenceIff(lines: seq<Line>, i: nat, target: nat, t: nat)
    requires i < |lines| && lines[i].Code? && ForwardTarget(lines, i, target)
    ensures Resolves(Output(lines), i, Label(Anons(lines, i)), t) <==> t == target && !NamedBetween(lines, i, target)
  {
    hide Label, Translated;
    var n := Anons(lines, i);
    AnonsMonotone(lines, i, target);
    assert Anons(lines, target) == n;
    UniqueNumber(lines, target, n);
    if t < |lines| {
      UniqueNumber(lines, t, n);
      if lines[t].Anonymous? {
        OnlyOneAnonHasNumber(lines, t, target);
      }
    }
    SameScopeIff(lines, i, target);
    SameScopes(lines, i);
    SameScopes(lines, target);
  }

  /** A back reference with no label before it names a label that is defined nowhere. */
  lemma DanglingBackReference(lines: seq<Line>, i: nat, t: nat)
    requires i < |lines| && lines[i].Code? && forall k :: 0 <= k < i ==> !lines[k].Anonymous?
    ensures !Resolves(Output(lines), i, Label(Anons(lines, i) - 1), t)
  {
    hide Label, Translated;
    AnonsMonotone(lines, 0, i);
    if t < |lines| {
      UniqueNumber(lines, t, -1);
    }
  }

  // ----- The emitted instructions

  /** Some whole identifier of the line is a back, or a forward, reference. */
  predicate RefersBack(isWord: char -> bool, asm: string) {
    "@b" in Pieces(isWord, asm) || "@B" in Pieces(isWord, asm)
  }

  predicate RefersForward(isWord: char -> bool, asm: string) {
    "@f" in Pieces(isWord, asm) || "@F" in Pieces(isWord, asm)
  }

  lemma {:induction false} OnlyUsedNamesMatter(pieces: seq<string>, b: string, f: string, b': string, f': string)
    requires "@b" in pieces || "@B" in pieces ==> b == b'
    requires "@f" in pieces || "@F" in pieces ==> f == f'
    ensures TranslatePieces(pieces, b, f) == TranslatePieces(pieces, b', f')
    decreases |pieces|
  {
    if pieces != [] {
      assert pieces[0] in pieces && forall w :: w in pieces[1..] ==> w in pieces;
      OnlyUsedNamesMatter(pieces[1..], b, f, b', f');
    }
  }

  /** A name that resolves to the back target is the label that counts the lines before. */
  lemma BackNameIs(lines: seq<Line>, i: nat, t: nat, name: string)
    requires i < |lines| && BackTarget(lines, i, t) && Resolves(Output(lines), i, name, t)
    ensures name == Label(Anons(lines, i) - 1)
  {
    hide Label, ConvertAnonymousLabels;
    AnonsMonotone(lines, t + 1, i);
  }

  lemma ForwardNameIs(lines: seq<Line>, i: nat, t: nat, name: string)
    requires i < |lines| && lines[i].Code? && ForwardTarget(lines, i, t) && Resolves(Output(lines), i, name, t)
    ensures name == Label(Anons(lines, i))
  {
    hide Label, ConvertAnonymousLabels;
    AnonsMonotone(lines, i + 1, t);
  }

  /**
   What is emitted for a line of code: its text with every back reference replaced by a name that
   means, in the output, the line the reference meant before, and every forward reference
   likewise, if and only if no longer identifier holds '@' followed by one of the four letters.
   A name that the line does not refer to may be anything.
   */
  lemma EmitsResolvingNamesIff(isWord: char -> bool, lines: seq<Line>, i: nat,
                               back: string, t: nat, forward: string, u: nat)
    requires forall c :: c in "bBfF" ==> isWord(c)
    requires i < |lines| && lines[i].Code?
    requires RefersBack(isWord, lines[i].asm) ==>
               BackTarget(lines, i, t) && Resolves(Output(lines), i, back, t)
    requires RefersForward(isWord, lines[i].asm) ==>
               ForwardTarget(lines, i, u) && Resolves(Output(lines), i, forward, u)
    ensures Output(lines)[i] == Instruction(TranslatePieces(Pieces(isWord, lines[i].asm), back, forward))
            <==> forall w :: w in Pieces(isWord, lines[i].asm) && |w| > 2 ==> !HoldsReference(w)
  {
    hide Label, ConvertAnonymousLabels, Pieces, TranslatePieces, HoldsReference, Resolves;
    var asm := lines[i].asm;
    if RefersBack(isWord, asm) {
      BackNameIs(lines, i, t, back);
    }
    if RefersForward(isWord, asm) {
      ForwardNameIs(lines, i, u, forward);
    }
    var n: int := Anons(lines, i);
    OnlyUsedNamesMatter(Pieces(isWord, asm), back, forward, Label(n - 1), Label(n));
    ConvertsReferencesIff(isWord, asm, n - 1);
  }

  /** "@b" behind "@@:" becomes its label. */
  lemma JumpsBack()
    ensures Output([Anonymous, Code("@b")]) == [Local(".0"), Instruction(".0")]
  {
    hide ConvertAnonymousLabels, Subst, Label;
    var lines, m := [Anonymous, Code("@b")], References(Label(0), Label(1));
    FirstLabel();
    FourPassesAreOne("@b", 0);
    SubstStep("@b", m);
    SubstOfEmpty(m);
    assert "@b"[2..] == "" && Label(0) + "" == Label(0);
    assert Anons(lines, 0) == 0 && Anons(lines, 1) == 1;
    assert Translated(lines, 1) == Instruction(ConvertAnonymousLabels("@b", 0));
  }
}
