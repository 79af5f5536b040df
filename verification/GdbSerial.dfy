/**
 The GDB File-I/O exchange of SerialIo.c: a request goes out, the debugger answers with
 commands and finally with an F reply, whose fields are parsed out of a C string.
 */
module GdbSerial {
  import opened Words
  import opened Wrappers

  const MAX_UINTN: nat := TWO_64 - 1

  /** What a C program reads at offset 0 of a NUL-terminated string; strings here hold no NUL. */
  function Head(s: string): char {
    if s == "" then '\0' else s[0]
  }

  // ----- AsciiStrHexToUintn

  predicate IsHex(c: char) { '0' <= c <= '9' || 'a' <= c <= 'f' || 'A' <= c <= 'F' }

  function HexDigit(c: char): nat
    requires IsHex(c)
  {
    if c <= '9' then c as int - '0' as int
    else if c <= 'F' then c as int - 'A' as int + 10
    else c as int - 'a' as int + 10
  }

  /** Reads digits until the first other character; saturates instead of overflowing. */
  function ReadHex(s: string, data: nat): nat {
    if !IsHex(Head(s)) then data
    else if data > (MAX_UINTN - HexDigit(s[0])) / 16 then MAX_UINTN
    else ReadHex(s[1..], data * 16 + HexDigit(s[0]))
  }

  function SkipBlanks(s: string): string {
    if Head(s) == ' ' || Head(s) == '\t' then SkipBlanks(s[1..]) else s
  }

  function SkipLeadingZeros(s: string): string {
    if Head(s) == '0' then SkipLeadingZeros(s[1..]) else s
  }

  function AsciiStrHexToUintn(s: string): nat {
    var t := SkipBlanks(s);
    var u := SkipLeadingZeros(t);
    if Head(u) == 'x' || Head(u) == 'X' then
      if Head(t) == '0' then ReadHex(u[1..], 0) else 0
    else ReadHex(u, 0)
  }

  /** A UINTN stored in an INTN. */
  function ToIntn(n: nat): int {
    if n < TWO_64 / 2 then n else n - TWO_64
  }

  // ----- The F reply

  /** What follows the first comma, if there is one. */
  function AfterComma(s: string): Option<string> {
    if s == "" then None else if s[0] == ',' then Some(s[1..]) else AfterComma(s[1..])
  }

  datatype Fields = Fields(retCode: int, errNo: nat, ctrlC: bool)

  /** The fields of an F packet: return code, error number, Ctrl-C flag. */
  function ReplyFields(packet: string): Fields
    requires Head(packet) == 'F'
  {
    var retCode := ToIntn(AsciiStrHexToUintn(packet[1..]));
    match AfterComma(packet)
    case None => Fields(retCode, 0, false)
    case Some(errNo) =>
      match AfterComma(errNo)
      case None => Fields(retCode, AsciiStrHexToUintn(errNo), false)
      case Some(flag) => Fields(retCode, AsciiStrHexToUintn(errNo), Head(flag) == 'C')
  }

  datatype Action =
    | SendPacket(packet: string)
    | WriteToMemory(packet: string)
    | ReadFromMemory(packet: string)
    | SendNotSupported
    | SendError(code: nat)

  /** An action together with the value gProcessingFPacket had at the time. */
  datatype Event = Event(action: Action, processing: bool)

  function Handled(p: string, command: char): Action {
    if Head(p) != command then SendNotSupported
    else if command == 'M' then WriteToMemory(p)
    else ReadFromMemory(p)
  }

  function HandledAll(packets: seq<string>, command: char, processing: bool): seq<Event> {
    seq(|packets|, i requires 0 <= i < |packets| => Event(Handled(packets[i], command), processing))
  }

  lemma HandledAllStep(packets: seq<string>, n: nat, command: char, processing: bool)
    requires n < |packets|
    ensures HandledAll(packets[..0], command, processing) == []
    ensures HandledAll(packets[..n + 1], command, processing)
            == HandledAll(packets[..n], command, processing) + [Event(Handled(packets[n], command), processing)]
  {
  }

  /** The packets with this first letter, in order. */
  function WithHead(packets: seq<string>, command: char): seq<string> {
    if packets == [] then []
    else
      WithHead(packets[..|packets| - 1], command)
      + if Head(packets[|packets| - 1]) == command then [packets[|packets| - 1]] else []
  }

  /** What was written to memory, in order, and how often a packet was refused. */
  function Written(log: seq<Event>): seq<string> {
    if log == [] then []
    else
      Written(log[..|log| - 1])
      + match log[|log| - 1].action
        case WriteToMemory(packet) => [packet]
        case _ => []
  }

  function Read(log: seq<Event>): seq<string> {
    if log == [] then []
    else
      Read(log[..|log| - 1])
      + match log[|log| - 1].action
        case ReadFromMemory(packet) => [packet]
        case _ => []
  }

  function Refusals(log: seq<Event>): nat {
    if log == [] then 0 else Refusals(log[..|log| - 1]) + if log[|log| - 1].action == SendNotSupported then 1 else 0
  }

  /** GdbRead serves the M packets, GdbWrite the m packets, in order; every other packet is refused once. */
  lemma {:induction false} ServedInOrder(packets: seq<string>, processing: bool)
    ensures Written(HandledAll(packets, 'M', processing)) == WithHead(packets, 'M')
    ensures Refusals(HandledAll(packets, 'M', processing)) == |packets| - |WithHead(packets, 'M')|
    ensures Read(HandledAll(packets, 'm', processing)) == WithHead(packets, 'm')
    ensures Refusals(HandledAll(packets, 'm', processing)) == |packets| - |WithHead(packets, 'm')|
    decreases |packets|
  {
    hide HandledAll;
    if packets == [] {
      NothingHandled(processing);
    } else {
      var n := |packets| - 1;
      assert packets[..n + 1] == packets;
      ServedInOrder(packets[..n], processing);
      HandledAllStep(packets, n, 'M', processing);
      HandledAllStep(packets, n, 'm', processing);
      ServedStep(HandledAll(packets[..n], 'M', processing), Event(Handled(packets[n], 'M'), processing));
      ServedStep(HandledAll(packets[..n], 'm', processing), Event(Handled(packets[n], 'm'), processing));
    }
  }

  lemma NothingHandled(processing: bool)
    ensures HandledAll([], 'M', processing) == [] && HandledAll([], 'm', processing) == []
  {
  }

  lemma ServedStep(log: seq<Event>, e: Event)
    ensures Written(log + [e]) == Written(log) + if e.action.WriteToMemory? then [e.action.packet] else []
    ensures Read(log + [e]) == Read(log) + if e.action.ReadFromMemory? then [e.action.packet] else []
    ensures Refusals(log + [e]) == Refusals(log) + if e.action == SendNotSupported then 1 else 0
  {
    assert (log + [e])[..|log|] == log;
  }

  function ErrorEvents(errNo: nat, processing: bool): seq<Event> {
    if errNo > 0 then [Event(SendError(errNo % 256), processing)] else []
  }

  /** The packets before the first F packet. */
  ghost predicate AnswersAt(incoming: seq<string>, k: nat) {
    k < |incoming| && Head(incoming[k]) == 'F' && forall j :: 0 <= j < k ==> Head(incoming[j]) != 'F'
  }

  class GdbStub {
    var gCtrlCBreakFlag: bool
    var gProcessingFPacket: bool
    /** What ReceivePacket will deliver. */
    var incoming: seq<string>
    var log: seq<Event>

    constructor (incoming: seq<string>)
      ensures !gCtrlCBreakFlag && !gProcessingFPacket && this.incoming == incoming && log == []
    {
      gCtrlCBreakFlag, gProcessingFPacket, this.incoming, log := false, false, incoming, [];
    }

    method Do(action: Action)
      modifies this`log
      ensures log == old(log) + [Event(action, gProcessingFPacket)]
    {
      log := log + [Event(action, gProcessingFPacket)];
    }

    method ReceivePacket() returns (packet: string)
      requires incoming != []
      modifies this`incoming
      ensures packet == old(incoming)[0] && incoming == old(incoming)[1..]
    {
      packet := incoming[0];
      incoming := incoming[1..];
    }

    /** GdbParseFReplyPacket; errNo stays unset for a packet that is no F packet. */
    method GdbParseFReplyPacket(packet: string) returns (retCode: int, errNo: Option<nat>)
      modifies this`gCtrlCBreakFlag
      ensures Head(packet) != 'F' ==> retCode == -1 && errNo.None? && gCtrlCBreakFlag == old(gCtrlCBreakFlag)
      ensures Head(packet) == 'F' ==>
                var f := ReplyFields(packet);
                retCode == f.retCode && errNo == Some(f.errNo) && gCtrlCBreakFlag == (old(gCtrlCBreakFlag) || f.ctrlC)
    {
      hide AsciiStrHexToUintn;
      if Head(packet) != 'F' {
        return -1, None;
      }
      retCode := ToIntn(AsciiStrHexToUintn(packet[1..]));
      var p := packet;
      while p != "" && p[0] != ','
        invariant AfterComma(p) == AfterComma(packet)
        decreases |p|
      {
        p := p[1..];
      }
      if p == "" {
        return retCode, Some(0);
      }
      p := p[1..];
      ghost var second := p;
      errNo := Some(AsciiStrHexToUintn(p));
      while p != "" && p[0] != ','
        invariant AfterComma(p) == AfterComma(second)
        decreases |p|
      {
        p := p[1..];
      }
      if p == "" {
        return;
      }
      p := p[1..];
      if Head(p) == 'C' {
        gCtrlCBreakFlag := true;
      }
    }

    /** The receive loop shared by the two requests: `command` is the one that is served. */
    method Serve(command: char, ghost k: nat) returns (packet: string)
      requires AnswersAt(incoming, k)
      requires command in {'M', 'm'}
      modifies this`incoming, this`log
      ensures packet == old(incoming)[k] && incoming == old(incoming)[k + 1..]
      ensures log == old(log) + HandledAll(old(incoming)[..k], command, gProcessingFPacket)
    {
      hide HandledAll;
      HandledAllStep(incoming, k, command, gProcessingFPacket);
      var receiveDone := false;
      ghost var n := 0;
      ghost var input := incoming;
      packet := "";
      while !receiveDone
        invariant n <= k + 1
        invariant incoming == input[n..]
        invariant receiveDone <==> n == k + 1
        invariant receiveDone ==> packet == input[k]
        invariant log == old(log) + HandledAll(input[..if n <= k then n else k], command, gProcessingFPacket)
        decreases k + 1 - n
      {
        HandledAllStep(input, n, command, gProcessingFPacket);
        packet := ReceivePacket();
        assert packet == input[n];
        if Head(packet) == command {
          Do(if command == 'M' then WriteToMemory(packet) else ReadFromMemory(packet));
        } else if Head(packet) == 'F' {
          receiveDone := true;
        } else {
          Do(SendNotSupported);
        }
        n := n + 1;
      }
    }

    /**
     GdbRead: M packets are applied in order, every other packet before the F reply is
     refused once, and gProcessingFPacket is held throughout and cleared on return.
     */
    method GdbRead(request: string, ghost k: nat) returns (retCode: int)
      requires AnswersAt(incoming, k)
      modifies this
      ensures var f := ReplyFields(old(incoming)[k]);
              && retCode == f.retCode
              && log == old(log) + [Event(SendPacket(request), true)]
                        + HandledAll(old(incoming)[..k], 'M', true) + ErrorEvents(f.errNo, true)
              && gCtrlCBreakFlag == (old(gCtrlCBreakFlag) || f.ctrlC)
      ensures incoming == old(incoming)[k + 1..] && !gProcessingFPacket
    {
      hide HandledAll, ReplyFields;
      gProcessingFPacket := true;
      Do(SendPacket(request));
      var packet := Serve('M', k);
      var errNo;
      retCode, errNo := GdbParseFReplyPacket(packet);
      if errNo.value > 0 {
        Do(SendError(errNo.value % 256));
      }
      gProcessingFPacket := false;
    }

    /** GdbWrite serves m packets instead, and leaves gProcessingFPacket as it finds it. */
    method GdbWrite(request: string, ghost k: nat) returns (retCode: int)
      requires AnswersAt(incoming, k)
      modifies this
      ensures var f := ReplyFields(old(incoming)[k]);
              var held := old(gProcessingFPacket);
              && retCode == f.retCode
              && log == old(log) + [Event(SendPacket(request), held)]
                        + HandledAll(old(incoming)[..k], 'm', held) + ErrorEvents(f.errNo, held)
              && gCtrlCBreakFlag == (old(gCtrlCBreakFlag) || f.ctrlC)
      ensures incoming == old(incoming)[k + 1..] && gProcessingFPacket == old(gProcessingFPacket)
    {
      hide HandledAll, ReplyFields;
      Do(SendPacket(request));
      var packet := Serve('m', k);
      var errNo;
      retCode, errNo := GdbParseFReplyPacket(packet);
      if errNo.value > 0 {
        Do(SendError(errNo.value % 256));
      }
    }
  }

  // ----- Replies as the debugger prints them

  function HexChar(d: nat): char
    requires d < 16
  {
    if d < 10 then (d + '0' as int) as char else (d - 10 + 'a' as int) as char
  }

  function Hex(n: nat): (s: string)
    ensures s != ""
  {
    if n < 16 then [HexChar(n)] else Hex(n / 16) + [HexChar(n % 16)]
  }

  function SignedHex(n: int): string {
    if n < 0 then "-" + Hex(-n) else Hex(n)
  }

  /** An F reply: a return code, optionally an error number, optionally then the Ctrl-C mark. */
  datatype Reply = Reply(code: int, errNo: Option<nat>, ctrlC: bool)

  ghost predicate ValidReply(r: Reply) {
    && -(TWO_64 / 2) <= r.code < TWO_64 / 2
    && (r.errNo.Some? ==> r.errNo.value < TWO_64)
    && (r.ctrlC ==> r.errNo.Some?)
  }

  function Tail(r: Reply): string {
    match r.errNo
    case None => ""
    case Some(e) => "," + (Hex(e) + if r.ctrlC then ",C" else "")
  }

  function Print(r: Reply): string {
    "F" + (SignedHex(r.code) + Tail(r))
  }

  /** The value of a string of digits that follows digits worth `data`. */
  function Value(s: string, data: nat): nat
    requires forall c :: c in s ==> IsHex(c)
  {
    if s == "" then data
    else
      assert s[0] in s;
      Value(s[1..], data * 16 + HexDigit(s[0]))
  }

  lemma {:induction false} ValueGrows(s: string, data: nat)
    requires forall c :: c in s ==> IsHex(c)
    ensures data <= Value(s, data)
    decreases |s|
  {
    if s != "" {
      assert s[0] in s;
      ValueGrows(s[1..], data * 16 + HexDigit(s[0]));
    }
  }

  lemma {:induction false} ValueConcat(s: string, c: char, data: nat)
    requires (forall d :: d in s ==> IsHex(d)) && IsHex(c)
    ensures Value(s + [c], data) == Value(s, data) * 16 + HexDigit(c)
    decreases |s|
  {
    if s == "" {
      assert s + [c] == [c] && [c][1..] == "";
    } else {
      assert s[0] in s;
      assert (s + [c])[1..] == s[1..] + [c];
      ValueConcat(s[1..], c, data * 16 + HexDigit(s[0]));
    }
  }

  /** Reading stops behind the digits and has their value, as long as it fits. */
  lemma {:induction false} ReadHexValue(s: string, rest: string, data: nat)
    requires forall c :: c in s ==> IsHex(c)
    requires !IsHex(Head(rest)) && Value(s, data) < TWO_64
    ensures ReadHex(s + rest, data) == Value(s, data)
    decreases |s|
  {
    if s == "" {
      assert s + rest == rest;
    } else {
      assert s[0] in s;
      var next := data * 16 + HexDigit(s[0]);
      ValueGrows(s[1..], next);
      assert (s + rest)[1..] == s[1..] + rest;
      ReadHexValue(s[1..], rest, next);
    }
  }

  lemma {:induction false} HexIsHex(n: nat)
    ensures forall c :: c in Hex(n) ==> IsHex(c)
    ensures Value(Hex(n), 0) == n
    ensures Hex(n)[0] == '0' <==> n == 0
    decreases n
  {
    if n < 16 {
      assert Hex(n)[1..] == "";
    } else {
      HexIsHex(n / 16);
      ValueConcat(Hex(n / 16), HexChar(n % 16), 0);
    }
  }

  /** The C library reads back a printed number, whatever non-digit other than 'x' follows it. */
  lemma HexRoundTrip(n: nat, rest: string)
    requires n < TWO_64 && Head(rest) in {'\0', ','}
    ensures AsciiStrHexToUintn(Hex(n) + rest) == n
  {
    hide ReadHex, Value;
    HexIsHex(n);
    var s := Hex(n) + rest;
    assert s[0] == Hex(n)[0] && Hex(n)[0] in Hex(n);
    if n == 0 {
      assert Hex(0) == "0";
      assert s[1..] == rest;
      assert SkipLeadingZeros(s) == rest;
      EmptyHex(rest);
    } else {
      ReadHexValue(Hex(n), rest, 0);
    }
  }

  lemma EmptyHex(rest: string)
    requires !IsHex(Head(rest))
    ensures ReadHex(rest, 0) == 0
  {
  }

  lemma {:induction false} NoCommaBefore(s: string, rest: string)
    requires ',' !in s
    ensures AfterComma(s + rest) == AfterComma(rest)
    decreases |s|
  {
    if s == "" {
      assert s + rest == rest;
    } else {
      assert (s + rest)[1..] == s[1..] + rest;
      NoCommaBefore(s[1..], rest);
    }
  }

  /** Everything behind the return code is read back. */
  lemma TailIsRead(r: Reply, front: string)
    requires ValidReply(r) && ',' !in front
    ensures var e := AfterComma(front + Tail(r));
            && (e.Some? <==> r.errNo.Some?)
            && (e.Some? ==> AsciiStrHexToUintn(e.value) == r.errNo.value)
            && (e.Some? ==> (AfterComma(e.value).Some? <==> r.ctrlC))
            && (e.Some? && r.ctrlC ==> Head(AfterComma(e.value).value) == 'C')
  {
    hide AsciiStrHexToUintn, Hex;
    NoCommaBefore(front, Tail(r));
    if r.errNo.Some? {
      var flag := if r.ctrlC then ",C" else "";
      var errNo := Hex(r.errNo.value);
      assert Tail(r)[1..] == errNo + flag;
      HexRoundTrip(r.errNo.value, flag);
      HexIsHex(r.errNo.value);
      assert ',' !in errNo;
      NoCommaBefore(errNo, flag);
      assert r.ctrlC ==> flag[1..] == "C";
    }
  }

  lemma SignedHexHasNoComma(n: int)
    ensures ',' !in SignedHex(n)
  {
    hide Hex;
    HexIsHex(if n < 0 then -n else n);
  }

  /** A minus sign is no digit, so a negative return code reads as zero. */
  lemma CodeIsRead(r: Reply)
    requires ValidReply(r)
    ensures AsciiStrHexToUintn(SignedHex(r.code) + Tail(r)) == if r.code < 0 then 0 else r.code
  {
    hide Hex;
    assert Head(Tail(r)) in {'\0', ','};
    if r.code < 0 {
      var s := SignedHex(r.code) + Tail(r);
      assert s[0] == '-';
      EmptyHex(s);
    } else {
      HexRoundTrip(r.code, Tail(r));
    }
  }

  /**
   The parser inverts the printer for every reply with a non-negative return code: error
   number and Ctrl-C flag are always read back, the return code exactly when it is not
   negative. The error replies of the protocol, "F-1,errno", are read as "0 bytes".
   */
  lemma ParserInvertsPrinterIff(r: Reply)
    requires ValidReply(r)
    ensures Head(Print(r)) == 'F'
    ensures var f := ReplyFields(Print(r));
            && f.errNo == (if r.errNo.None? then 0 else r.errNo.value)
            && f.ctrlC == r.ctrlC
            && (f.retCode == r.code <==> 0 <= r.code)
            && (r.code < 0 ==> f.retCode == 0)
  {
    hide AsciiStrHexToUintn, SignedHex, Tail, AfterComma;
    var s := Print(r);
    assert s[1..] == SignedHex(r.code) + Tail(r);
    assert s == ("F" + SignedHex(r.code)) + Tail(r);
    SignedHexHasNoComma(r.code);
    CodeIsRead(r);
    TailIsRead(r, "F" + SignedHex(r.code));
  }

  /** The reply to a failed read, error 5 (EIO), comes out as a read of no bytes. */
  lemma FailureReadsAsZeroBytes()
    ensures Print(Reply(-1, Some(5), false)) == "F-1,5"
    ensures ReplyFields("F-1,5").retCode == 0 && ReplyFields("F-1,5").errNo == 5
  {
    var r := Reply(-1, Some(5), false);
    assert SignedHex(-1) == "-1";
    assert Tail(r) == ",5";
    ParserInvertsPrinterIff(r);
  }
}
