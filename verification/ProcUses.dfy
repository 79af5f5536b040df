/**
 MASM's "PROC USES" in ConvertMasmToNasm.py: the registers are pushed behind the procedure's
 label and popped again at a line that reads "ret", after which the translator forgets them. A
 return with an operand, such as "ret 16", is copied like any other line.
 */
module ProcUses {
  import opened PyStrings
  import opened Wrappers

  type Register = string

  /** A PROC line with its registers, or the stripped text of any other line. */
  datatype Masm = Proc(uses: seq<Register>) | Code(asm: string)

  /** The translator's test: oldAsm.lower() == 'ret'. */
  predicate IsPlainRet(line: Masm) {
    line.Code? && Lower(line.asm) == "ret"
  }

  predicate IsBlank(c: char) { c == ' ' || c == '\t' }

  /** A return instruction, with or without an operand, as the assembler reads it. */
  predicate IsReturnText(asm: string) {
    Lower(FirstWord(IsBlank, asm)) in ["ret", "retn", "retf"]
  }

  /** The line leaves the procedure. */
  predicate IsReturn(line: Masm) {
    line.Code? && IsReturnText(line.asm)
  }

  /** Neither a PROC nor a plain "ret": the remembered registers stay as they are. */
  predicate IsOther(line: Masm) {
    line.Code? && !IsPlainRet(line)
  }

  datatype Nasm = ProcLabel | Push(register: Register) | Pop(register: Register) | RetInstr | Plain(asm: string)

  function Pushes(uses: seq<Register>): seq<Nasm> {
    if uses == [] then [] else [Push(uses[0])] + Pushes(uses[1..])
  }

  /** Pops in the opposite order. */
  function Pops(uses: seq<Register>): seq<Nasm> {
    if uses == [] then [] else Pops(uses[1..]) + [Pop(uses[0])]
  }

  // ----- Which registers a "ret" restores

  /** Line i is governed by the PROC at p: no other PROC lies between. */
  ghost predicate Governs(lines: seq<Masm>, p: nat, i: nat) {
    p < i <= |lines| && lines[p].Proc? && forall k :: p < k < i ==> !lines[k].Proc?
  }

  ghost predicate NoRetBetween(lines: seq<Masm>, p: nat, i: nat)
    requires i <= |lines|
  {
    forall k :: p < k < i ==> !IsPlainRet(lines[k])
  }

  /** self.uses just before line i; None while the attribute does not exist. */
  function Uses(lines: seq<Masm>, i: nat): Option<seq<Register>>
    requires i <= |lines|
  {
    if i == 0 then None
    else
      match lines[i - 1]
      case Proc(uses) => Some(uses)
      case Code(_) => if IsPlainRet(lines[i - 1]) then Some([]) else Uses(lines, i - 1)
  }

  /** Before line i the translator remembers the registers of the PROC at p until its first plain "ret". */
  lemma {:induction false} UsesOfProc(lines: seq<Masm>, p: nat, i: nat)
    requires Governs(lines, p, i)
    ensures Uses(lines, i) == Some(if NoRetBetween(lines, p, i) then lines[p].uses else [])
    decreases i
  {
    if p + 1 < i {
      UsesOfProc(lines, p, i - 1);
    }
  }

  /** The attribute is missing at line i exactly when neither PROC nor plain "ret" came before. */
  lemma {:induction false} UsesMissingIff(lines: seq<Masm>, i: nat)
    requires i <= |lines|
    ensures Uses(lines, i).None? <==> forall k :: 0 <= k < i ==> IsOther(lines[k])
    decreases i
  {
    if i > 0 {
      UsesMissingIff(lines, i - 1);
    }
  }

  function Emitted(lines: seq<Masm>, i: nat): seq<Nasm>
    requires i < |lines|
  {
    match lines[i]
    case Proc(uses) => [ProcLabel] + Pushes(uses)
    case Code(asm) =>
      if IsPlainRet(lines[i]) then
        (match Uses(lines, i) case None => [] case Some(uses) => Pops(uses)) + [RetInstr]
      else [Plain(asm)]
  }

  function Output(lines: seq<Masm>, n: nat): seq<Nasm>
    requires n <= |lines|
  {
    if n == 0 then [] else Output(lines, n - 1) + Emitted(lines, n - 1)
  }

  lemma {:induction false} PushesAppend(uses: seq<Register>, k: nat)
    requires k < |uses|
    ensures Pushes(uses[..k + 1]) == Pushes(uses[..k]) + [Push(uses[k])]
    decreases |uses|
  {
    if k == 0 {
      assert uses[..1] == [uses[0]];
    } else {
      assert uses[..k + 1][1..] == uses[1..][..k];
      assert uses[..k][1..] == uses[1..][..k - 1];
      PushesAppend(uses[1..], k - 1);
    }
  }

  lemma PopsStep(uses: seq<Register>, k: nat)
    requires k < |uses|
    ensures Pops(uses[k..]) == Pops(uses[k + 1..]) + [Pop(uses[k])]
  {
    assert uses[k..][1..] == uses[k + 1..];
  }

  /**
   The branches of TranslateAsm for PROC and "ret". None is the AttributeError of a plain "ret"
   that no PROC precedes.
   */
  method Translate(lines: seq<Masm>) returns (output: Option<seq<Nasm>>)
    ensures output.None? <==>
            exists i :: 0 <= i < |lines| && IsPlainRet(lines[i]) && forall k :: 0 <= k < i ==> IsOther(lines[k])
    ensures output.Some? ==> output.value == Output(lines, |lines|)
  {
    hide Lower;
    var uses: Option<seq<Register>> := None;
    var out: seq<Nasm> := [];
    var i := 0;
    while i < |lines|
      invariant 0 <= i <= |lines|
      invariant uses == Uses(lines, i)
      invariant out == Output(lines, i)
      invariant !exists j :: 0 <= j < i && IsPlainRet(lines[j]) && forall k :: 0 <= k < j ==> IsOther(lines[k])
    {
      UsesMissingIff(lines, i);
      match lines[i] {
        case Proc(registers) =>
          uses := Some(registers);
          var pushes := EmitPushes(registers);
          out := out + ([ProcLabel] + pushes);
        case Code(asm) =>
          if Lower(asm) == "ret" {
            if uses.None? {
              return None;
            }
            var pops := EmitPops(uses.value);
            out := out + (pops + [RetInstr]);
            uses := Some([]);
          } else {
            out := out + [Plain(asm)];
          }
      }
      i := i + 1;
    }
    return Some(out);
  }

  method EmitPushes(uses: seq<Register>) returns (out: seq<Nasm>)
    ensures out == Pushes(uses)
  {
    out := [];
    assert uses[..0] == [];
    for k := 0 to |uses|
      invariant out == Pushes(uses[..k])
    {
      PushesAppend(uses, k);
      out := out + [Push(uses[k])];
    }
    assert uses[..|uses|] == uses;
  }

  /** for i in range(len(uses) - 1, -1, -1) */
  method EmitPops(uses: seq<Register>) returns (out: seq<Nasm>)
    ensures out == Pops(uses)
  {
    out := [];
    var i := |uses| - 1;
    while i >= 0
      invariant -1 <= i < |uses|
      invariant out == Pops(uses[i + 1..])
    {
      PopsStep(uses, i);
      out := out + [Pop(uses[i])];
      i := i - 1;
    }
    assert uses[0..] == uses;
  }

  // ----- What the machine does

  /** On entry to a procedure the return address lies on top of the stack. */
  datatype Machine = Machine(registers: map<Register, int>, stack: seq<int>, returnedTo: Option<int>) {
    function Get(r: Register): int {
      if r in registers then registers[r] else 0
    }

    ghost predicate Runs() { returnedTo.None? }
  }

  function Pushed(m: Machine, v: int): Machine { m.(stack := m.stack + [v]) }

  /** A return takes the address from the stack. What else an operand takes from it is not modelled. */
  function Returned(m: Machine): Machine {
    if m.stack == [] then m
    else m.(stack := m.stack[..|m.stack| - 1], returnedTo := Some(m.stack[|m.stack| - 1]))
  }

  /** One instruction. A machine that has returned executes no more; other code is left to the caller of Exec. */
  function Step(m: Machine, op: Nasm): Machine {
    if m.returnedTo.Some? then m
    else
      match op
      case ProcLabel => m
      case Push(r) => Pushed(m, m.Get(r))
      case Pop(r) =>
        if m.stack == [] then m
        else m.(registers := m.registers[r := m.stack[|m.stack| - 1]], stack := m.stack[..|m.stack| - 1])
      case RetInstr => Returned(m)
      case Plain(asm) => if IsReturnText(asm) then Returned(m) else m
  }

  function Exec(m: Machine, ops: seq<Nasm>): Machine
    decreases |ops|
  {
    if ops == [] then m else Exec(Step(m, ops[0]), ops[1..])
  }

  lemma {:induction false} ExecConcat(m: Machine, a: seq<Nasm>, b: seq<Nasm>)
    ensures Exec(m, a + b) == Exec(Exec(m, a), b)
    decreases |a|
  {
    hide Step;
    if a == [] {
      assert a + b == b;
    } else {
      assert (a + b)[1..] == a[1..] + b;
      ExecConcat(Step(m, a[0]), a[1..], b);
    }
  }

  lemma ExecOne(m: Machine, op: Nasm)
    ensures Exec(m, [op]) == Step(m, op)
  {
    hide Step;
    assert [op][1..] == [];
  }

  function Values(m: Machine, uses: seq<Register>): seq<int> {
    seq(|uses|, i requires 0 <= i < |uses| => m.Get(uses[i]))
  }

  /** Values only depend on the registers. */
  lemma ValuesCons(m: Machine, other: Machine, uses: seq<Register>)
    requires uses != [] && other.registers == m.registers
    ensures Values(m, uses) == [m.Get(uses[0])] + Values(other, uses[1..])
  {
  }

  lemma ExecCons(m: Machine, op: Nasm, ops: seq<Nasm>)
    ensures Exec(m, [op] + ops) == Exec(Step(m, op), ops)
  {
    hide Step;
    assert ([op] + ops)[1..] == ops;
  }

  lemma {:induction false} PrologueSaves(m: Machine, uses: seq<Register>)
    requires m.Runs()
    ensures Exec(m, Pushes(uses)) == m.(stack := m.stack + Values(m, uses))
    decreases |uses|
  {
    if uses == [] {
      assert m.stack + Values(m, uses) == m.stack;
    } else {
      hide Values, Exec;
      var first := Step(m, Push(uses[0]));
      PrologueSaves(first, uses[1..]);
      ExecCons(m, Push(uses[0]), Pushes(uses[1..]));
      ValuesCons(m, first, uses);
      assert m.stack + ([m.Get(uses[0])] + Values(first, uses[1..])) == m.stack + [m.Get(uses[0])] + Values(first, uses[1..]);
    }
  }

  /** The pops put back what lies on top of the stack, and touch no other register. */
  lemma {:induction false} EpilogueRestores(saved: Machine, m: Machine, base: seq<int>, uses: seq<Register>)
    requires m.Runs() && m.stack == base + Values(saved, uses)
    ensures var end := Exec(m, Pops(uses));
            && end.Runs() && end.stack == base
            && (forall r :: r in uses ==> end.Get(r) == saved.Get(r))
            && (forall r :: r !in uses ==> end.Get(r) == m.Get(r))
    decreases |uses|
  {
    if uses == [] {
      assert base + Values(saved, uses) == base;
    } else {
      hide Values, Exec, Pops;
      var rest, r := uses[1..], uses[0];
      var base' := base + [saved.Get(r)];
      ValuesCons(saved, saved, uses);
      assert base + ([saved.Get(r)] + Values(saved, rest)) == base' + Values(saved, rest);
      EpilogueRestores(saved, m, base', rest);
      PopsCons(uses);
      ExecConcat(m, Pops(rest), [Pop(r)]);
      ExecPop(Exec(m, Pops(rest)), base, saved.Get(r), r);
    }
  }

  lemma PopsCons(uses: seq<Register>)
    requires uses != []
    ensures Pops(uses) == Pops(uses[1..]) + [Pop(uses[0])]
  {
  }

  lemma ExecPop(m: Machine, base: seq<int>, v: int, r: Register)
    requires m.Runs() && m.stack == base + [v]
    ensures Exec(m, [Pop(r)]) == m.(registers := m.registers[r := v], stack := base)
  {
    ExecOne(m, Pop(r));
    assert m.stack[..|base|] == base;
  }

  // ----- Whole procedures

  /** What is emitted for a PROC line saves its registers behind the return address. */
  lemma ProcSaves(lines: seq<Masm>, p: nat, entry: Machine)
    requires p < |lines| && lines[p].Proc? && entry.Runs()
    ensures Exec(entry, Emitted(lines, p)) == entry.(stack := entry.stack + Values(entry, lines[p].uses))
  {
    hide Exec, Values, Pushes;
    ExecCons(entry, ProcLabel, Pushes(lines[p].uses));
    PrologueSaves(entry, lines[p].uses);
  }

  lemma ExecReturn(m: Machine, op: Nasm, base: seq<int>, address: int)
    requires m.Runs() && m.stack == base + [address]
    requires op == RetInstr || (op.Plain? && IsReturnText(op.asm))
    ensures Exec(m, [op]) == m.(stack := base, returnedTo := Some(address))
  {
    hide IsReturnText;
    ExecOne(m, op);
    assert m.stack[..|base|] == base;
  }

  /**
   A procedure entered with a return address on the stack, whose body comes to its first plain
   "ret" with the stack as the emitted prologue left it: what is emitted for the "ret" returns to
   that address, and the stack below and the registers of USES are as on entry.
   */
  lemma FirstRetRestores(lines: seq<Masm>, p: nat, i: nat, entry: Machine, base: seq<int>, address: int, atRet: Machine)
    requires Governs(lines, p, i) && i < |lines| && IsPlainRet(lines[i]) && NoRetBetween(lines, p, i)
    requires entry.Runs() && entry.stack == base + [address]
    requires atRet.Runs() && atRet.stack == Exec(entry, Emitted(lines, p)).stack
    ensures var end := Exec(atRet, Emitted(lines, i));
            && end.returnedTo == Some(address) && end.stack == base
            && (forall r :: r in lines[p].uses ==> end.Get(r) == entry.Get(r))
            && (forall r :: r !in lines[p].uses ==> end.Get(r) == atRet.Get(r))
  {
    hide Lower, Exec, Pops, Values, Pushes;
    var uses := lines[p].uses;
    ProcSaves(lines, p, entry);
    UsesOfProc(lines, p, i);
    EpilogueRestores(entry, atRet, entry.stack, uses);
    ExecConcat(atRet, Pops(uses), [RetInstr]);
    ExecReturn(Exec(atRet, Pops(uses)), RetInstr, base, address);
  }

  /** A return for which nothing is popped takes what lies on top of the stack. */
  lemma BareReturn(lines: seq<Masm>, p: nat, i: nat, m: Machine)
    requires Governs(lines, p, i) && i < |lines| && IsReturn(lines[i]) && m.Runs() && m.stack != []
    requires IsPlainRet(lines[i]) ==> !NoRetBetween(lines, p, i)
    ensures Exec(m, Emitted(lines, i)) == Returned(m)
  {
    hide Lower, FirstWord;
    UsesOfProc(lines, p, i);
    if IsPlainRet(lines[i]) {
      assert Emitted(lines, i) == [RetInstr];
      ExecOne(m, RetInstr);
    } else {
      ExecOne(m, Plain(lines[i].asm));
    }
  }

  /**
   Any line that leaves the procedure returns to the caller, with the stack as the caller left
   it, if and only if the procedure saves nothing, or the line is a plain "ret" and the first
   such: later ones pop nothing, and neither does a return with an operand.
   */
  lemma ReturnIsBalancedIff(
    lines: seq<Masm>, p: nat, i: nat, entry: Machine, base: seq<int>, address: int, atReturn: Machine)
    requires Governs(lines, p, i) && i < |lines| && IsReturn(lines[i])
    requires entry.Runs() && entry.stack == base + [address]
    requires atReturn.Runs() && atReturn.stack == Exec(entry, Emitted(lines, p)).stack
    ensures var end := Exec(atReturn, Emitted(lines, i));
            end.returnedTo == Some(address) && end.stack == base <==>
            lines[p].uses == [] || (IsPlainRet(lines[i]) && NoRetBetween(lines, p, i))
  {
    hide Lower, FirstWord, Exec, Emitted, Pushes, Pops, Uses;
    ProcSaves(lines, p, entry);
    if IsPlainRet(lines[i]) && NoRetBetween(lines, p, i) {
      FirstRetRestores(lines, p, i, entry, base, address, atReturn);
    } else {
      BareReturn(lines, p, i, atReturn);
      assert |atReturn.stack| == |base| + 1 + |lines[p].uses|;
      if lines[p].uses == [] {
        assert atReturn.stack == base + [address];
        assert atReturn.stack[..|base|] == base;
      }
    }
  }

  /** Neither a PROC nor any return: what is emitted for the line is the line. */
  predicate IsBody(line: Masm) {
    IsOther(line) && !IsReturnText(line.asm)
  }

  /** The output from line p up to line n. */
  function OutputBetween(lines: seq<Masm>, p: nat, n: nat): seq<Nasm>
    requires p <= n <= |lines|
  {
    if n == p then [] else OutputBetween(lines, p, n - 1) + Emitted(lines, n - 1)
  }

  lemma {:induction false} OutputIsInOrder(lines: seq<Masm>, p: nat, n: nat)
    requires p <= n <= |lines|
    ensures Output(lines, n) == Output(lines, p) + OutputBetween(lines, p, n)
    decreases n
  {
    hide Emitted;
    if p < n {
      OutputIsInOrder(lines, p, n - 1);
    }
  }

  lemma {:induction false} BodyIsTransparent(lines: seq<Masm>, p: nat, n: nat, m: Machine)
    requires p <= n <= |lines| && m.Runs() && forall k :: p <= k < n ==> IsBody(lines[k])
    ensures Exec(m, OutputBetween(lines, p, n)) == m
    decreases n
  {
    hide IsReturnText, Lower;
    if p < n {
      BodyIsTransparent(lines, p, n - 1, m);
      ExecConcat(m, OutputBetween(lines, p, n - 1), Emitted(lines, n - 1));
      assert IsBody(lines[n - 1]);
      ExecOne(m, Plain(lines[n - 1].asm));
    }
  }

  lemma {:induction false} OutputBetweenSplit(lines: seq<Masm>, p: nat, k: nat, n: nat)
    requires p <= k <= n <= |lines|
    ensures OutputBetween(lines, p, n) == OutputBetween(lines, p, k) + OutputBetween(lines, k, n)
    decreases n
  {
    hide Emitted;
    if k < n {
      OutputBetweenSplit(lines, p, k, n - 1);
    }
  }

  /**
   Running the output from a PROC line to the first plain "ret" behind it, over code that is taken
   to do nothing, returns to the caller with the stack and every register as on entry.
   */
  lemma ProcedureReturns(lines: seq<Masm>, p: nat, i: nat, entry: Machine, base: seq<int>, address: int)
    requires p < i < |lines| && lines[p].Proc? && IsPlainRet(lines[i])
    requires forall k :: p < k < i ==> IsBody(lines[k])
    requires entry.Runs() && entry.stack == base + [address]
    ensures Output(lines, i + 1) == Output(lines, p) + OutputBetween(lines, p, i + 1)
    ensures var end := Exec(entry, OutputBetween(lines, p, i + 1));
            end.returnedTo == Some(address) && end.stack == base && forall r :: end.Get(r) == entry.Get(r)
  {
    hide Emitted, Exec, IsReturnText, Lower, Values, OutputBetween, Output;
    OutputIsInOrder(lines, p, i + 1);
    OutputBetweenSplit(lines, p, p + 1, i + 1);
    OutputBetweenSplit(lines, p + 1, i, i + 1);
    OneLineOutput(lines, p);
    OneLineOutput(lines, i);
    var mid := Exec(entry, Emitted(lines, p));
    ProcSaves(lines, p, entry);
    ExecConcat(entry, Emitted(lines, p), OutputBetween(lines, p + 1, i + 1));
    ExecConcat(mid, OutputBetween(lines, p + 1, i), Emitted(lines, i));
    BodyIsTransparent(lines, p + 1, i, mid);
    FirstRetRestores(lines, p, i, entry, base, address, mid);
  }

  lemma OneLineOutput(lines: seq<Masm>, k: nat)
    requires k < |lines|
    ensures OutputBetween(lines, k, k + 1) == Emitted(lines, k)
  {
    hide Emitted;
    assert OutputBetween(lines, k, k) == [];
  }

  /** The second "ret" of a procedure, and a return with an operand, do not return to the caller. */
  lemma UnbalancedReturns(entry: Machine, base: seq<int>, address: int, m: Machine)
    requires entry.Runs() && entry.stack == base + [address]
    requires m.Runs() && m.stack == base + [address] + [entry.Get("ebx")]
    ensures Exec(m, Emitted([Proc(["ebx"]), Code("ret"), Code("ret")], 2)).stack != base
    ensures Exec(m, Emitted([Proc(["ebx"]), Code("ret 16")], 1)).stack != base
  {
    hide Emitted, Exec, IsReturnText;
    var twice, operand := [Proc(["ebx"]), Code("ret"), Code("ret")], [Proc(["ebx"]), Code("ret 16")];
    RetTexts();
    assert IsPlainRet(twice[1]);
    BareReturn(twice, 0, 2, m);
    BareReturn(operand, 0, 1, m);
  }

  lemma RetTexts()
    ensures IsPlainRet(Code("ret")) && IsReturn(Code("ret"))
    ensures !IsPlainRet(Code("ret 16")) && IsReturn(Code("ret 16"))
  {
    assert Lower("ret") == "ret";
    assert |Lower("ret 16")| == 6;
    FirstWordIsRet("");
    FirstWordIsRet(" 16");
    assert "ret" + "" == "ret" && "ret" + " 16" == "ret 16";
  }

  lemma FirstWordIsRet(rest: string)
    requires rest == "" || IsBlank(rest[0])
    ensures FirstWord(IsBlank, "ret" + rest) == "ret"
  {
    var s := "ret" + rest;
    assert s[1..][1..] == s[2..] && s[2..][1..] == rest;
    assert FirstWord(IsBlank, rest) == "";
    assert FirstWord(IsBlank, s[2..]) == "t";
    assert FirstWord(IsBlank, s[1..]) == "et";
  }
}
