/**
 BinToPcd.py: packing files as XDR variable-length opaque data (section 4.10 of RFC 4506)
 and printing bytes as a PCD value.
 */
module BinToPcd {
  import opened Words
  import opened Wrappers

  // ----- XDR

  function Be16(n: nat): (bytes: seq<Byte>)
    requires n < TWO_16
    ensures |bytes| == 2
  {
    [n / 0x100, n % 0x100]
  }

  /** struct.pack ('>L', n) */
  function Be32(n: nat): (bytes: seq<Byte>)
    requires n < TWO_32
    ensures |bytes| == 4
  {
    Be16(n / TWO_16) + Be16(n % TWO_16)
  }

  function ReadBe16(bytes: seq<Byte>): (n: nat)
    requires |bytes| == 2
    ensures n < TWO_16
  {
    0x100 * (bytes[0] as nat) + bytes[1]
  }

  function ReadBe32(bytes: seq<Byte>): (n: nat)
    requires |bytes| == 4
    ensures n < TWO_32
  {
    TWO_16 * ReadBe16(bytes[..2]) + ReadBe16(bytes[2..])
  }

  lemma Be32RoundTrip(n: nat)
    requires n < TWO_32
    ensures ReadBe32(Be32(n)) == n
  {
    var bytes := Be32(n);
    assert bytes[..2] == Be16(n / TWO_16) && bytes[2..] == Be16(n % TWO_16);
    assert ReadBe16(Be16(n / TWO_16)) == n / TWO_16;
    assert ReadBe16(Be16(n % TWO_16)) == n % TWO_16;
  }

  lemma ReadBe32RoundTrip(bytes: seq<Byte>)
    requires |bytes| == 4
    ensures Be32(ReadBe32(bytes)) == bytes
  {
    var n := ReadBe32(bytes);
    assert n / TWO_16 == ReadBe16(bytes[..2]) && n % TWO_16 == ReadBe16(bytes[2..]);
    assert Be16(ReadBe16(bytes[..2])) == bytes[..2];
    assert Be16(ReadBe16(bytes[2..])) == bytes[2..];
    assert bytes[..2] + bytes[2..] == bytes;
  }

  /** The residual zero bytes that make a length a multiple of four. */
  function Padding(n: nat): nat { (4 - n % 4) % 4 }

  lemma CeilToFour(n: nat)
    ensures (n + 3) / 4 * 4 == n + Padding(n)
    ensures (n + Padding(n)) % 4 == 0
  {
  }

  function Zeros(n: nat): seq<Byte> {
    seq(n, i requires 0 <= i < n => 0)
  }

  function PackOne(data: seq<Byte>): seq<Byte>
    requires |data| < TWO_32
  {
    Be32(|data|) + data + Zeros(Padding(|data|))
  }

  ghost predicate Packable(buffers: seq<seq<Byte>>) {
    forall b :: b in buffers ==> |b| < TWO_32
  }

  ghost function Packed(buffers: seq<seq<Byte>>): seq<Byte>
    requires Packable(buffers)
  {
    if buffers == [] then [] else PackOne(buffers[0]) + Packed(buffers[1..])
  }

  lemma {:induction false} PackedConcat(a: seq<seq<Byte>>, b: seq<seq<Byte>>)
    requires Packable(a) && Packable(b)
    ensures Packable(a + b)
    ensures Packed(a + b) == Packed(a) + Packed(b)
    decreases |a|
  {
    if a == [] {
      assert a + b == b;
    } else {
      assert (a + b)[1..] == a[1..] + b;
      PackedConcat(a[1..], b);
    }
  }

  lemma PackedSingle(data: seq<Byte>)
    requires |data| < TWO_32
    ensures Packed([data]) == PackOne(data)
  {
    assert PackOne(data) + [] == PackOne(data);
  }

  /** XdrPackBuffer; None is the struct.error of a buffer whose length needs more than 32 bits. */
  method XdrPackBuffer(buffers: seq<seq<Byte>>) returns (packed: Option<seq<Byte>>)
    ensures packed.Some? <==> Packable(buffers)
    ensures Packable(buffers) ==> packed == Some(Packed(buffers))
  {
    hide PackOne;
    var out: seq<Byte> := [];
    var i := 0;
    assert buffers[..0] == [];
    while i < |buffers|
      invariant 0 <= i <= |buffers|
      invariant Packable(buffers[..i])
      invariant out == Packed(buffers[..i])
    {
      var n := |buffers[i]|;
      if n >= TWO_32 {
        assert buffers[i] in buffers;
        return None;
      }
      assert buffers[..i + 1] == buffers[..i] + [buffers[i]];
      PackedConcat(buffers[..i], [buffers[i]]);
      PackedSingle(buffers[i]);
      out := out + PackLoopBody(buffers[i]);
      i := i + 1;
    }
    assert buffers[..|buffers|] == buffers;
    return Some(out);
  }

  /** The loop body: the length, then the data filled up to ceil (n / 4) * 4 bytes. */
  function PackLoopBody(data: seq<Byte>): (bytes: seq<Byte>)
    requires |data| < TWO_32
    ensures bytes == PackOne(data)
  {
    hide Padding;
    CeilToFour(|data|);
    var n := (|data| + 3) / 4 * 4;
    Be32(|data|) + (data + Zeros(n - |data|))
  }

  /** A decoder as section 4.10 describes the format: residual bytes must be zero. */
  function Unpack(bytes: seq<Byte>): Option<seq<seq<Byte>>>
    decreases |bytes|
  {
    if bytes == [] then Some([])
    else if |bytes| < 4 then None
    else
      var n := ReadBe32(bytes[..4]);
      var end := 4 + n;
      var next := end + Padding(n);
      if next > |bytes| || bytes[end..next] != Zeros(Padding(n)) then None
      else
        match Unpack(bytes[next..])
        case None => None
        case Some(rest) => Some([bytes[4..end]] + rest)
  }

  lemma UnpackFirst(data: seq<Byte>, rest: seq<Byte>)
    requires |data| < TWO_32
    ensures var bytes, n := PackOne(data) + rest, |data|;
            && |bytes| >= 4 + n + Padding(n)
            && ReadBe32(bytes[..4]) == n
            && bytes[4..4 + n] == data
            && bytes[4 + n..4 + n + Padding(n)] == Zeros(Padding(n))
            && bytes[4 + n + Padding(n)..] == rest
  {
    hide Be32, ReadBe32;
    var bytes := PackOne(data) + rest;
    assert bytes[..4] == Be32(|data|);
    Be32RoundTrip(|data|);
  }

  /** Unpacking inverts packing, for every list of buffers. */
  lemma {:induction false} UnpackInvertsPack(buffers: seq<seq<Byte>>)
    requires Packable(buffers)
    ensures Unpack(Packed(buffers)) == Some(buffers)
    decreases |buffers|
  {
    if buffers == [] {
      PackedNothing();
    } else {
      hide PackOne, Packed, Unpack;
      assert buffers[0] in buffers && forall b :: b in buffers[1..] ==> b in buffers;
      UnpackInvertsPack(buffers[1..]);
      UnpackOne(buffers[0], Packed(buffers[1..]), buffers[1..]);
      PackedCons(buffers[0], buffers[1..]);
      assert [buffers[0]] + buffers[1..] == buffers;
    }
  }

  lemma UnpackOne(data: seq<Byte>, packed: seq<Byte>, rest: seq<seq<Byte>>)
    requires |data| < TWO_32 && Unpack(packed) == Some(rest)
    ensures Unpack(PackOne(data) + packed) == Some([data] + rest)
  {
    hide PackOne, ReadBe32, Padding, Zeros;
    UnpackFirst(data, packed);
  }

  lemma RepackFirst(bytes: seq<Byte>, n: nat)
    requires 4 + n + Padding(n) <= |bytes| && n == ReadBe32(bytes[..4])
    requires bytes[4 + n..4 + n + Padding(n)] == Zeros(Padding(n))
    ensures PackOne(bytes[4..4 + n]) == bytes[..4 + n + Padding(n)]
  {
    hide Be32, ReadBe32, Padding, Zeros;
    ReadBe32RoundTrip(bytes[..4]);
    assert bytes[..4] + bytes[4..4 + n] + bytes[4 + n..4 + n + Padding(n)] == bytes[..4 + n + Padding(n)];
  }

  lemma PackedCons(first: seq<Byte>, rest: seq<seq<Byte>>)
    requires |first| < TWO_32 && Packable(rest)
    ensures Packable([first] + rest)
    ensures Packed([first] + rest) == PackOne(first) + Packed(rest)
  {
    assert ([first] + rest)[1..] == rest;
  }

  /** Packing inverts unpacking: every byte string the decoder accepts is the packing of its result. */
  lemma {:induction false} PackInvertsUnpack(bytes: seq<Byte>)
    requires Unpack(bytes).Some?
    ensures Packable(Unpack(bytes).value) && Packed(Unpack(bytes).value) == bytes
    decreases |bytes|
  {
    hide ReadBe32, Padding, PackOne, Packable, Packed;
    if bytes == [] {
      PackedNothing();
    } else {
      var n := ReadBe32(bytes[..4]);
      var next := 4 + n + Padding(n);
      var first, tail := bytes[4..4 + n], bytes[next..];
      PackInvertsUnpack(tail);
      RepackFirst(bytes, n);
      PackedCons(first, Unpack(tail).value);
      assert bytes[..next] + tail == bytes;
    }
  }

  lemma PackedNothing()
    ensures Packable([]) && Packed([]) == []
  {
  }

  /** Different lists of buffers pack differently. */
  lemma PackIsInjective(a: seq<seq<Byte>>, b: seq<seq<Byte>>)
    requires Packable(a) && Packable(b) && Packed(a) == Packed(b)
    ensures a == b
  {
    UnpackInvertsPack(a);
    UnpackInvertsPack(b);
  }

  lemma PackOneLength(data: seq<Byte>)
    requires |data| < TWO_32
    ensures |PackOne(data)| == 4 + (|data| + Padding(|data|))
  {
  }

  lemma {:induction false} PackedLength(buffers: seq<seq<Byte>>)
    requires Packable(buffers)
    ensures |Packed(buffers)| % 4 == 0
    decreases |buffers|
  {
    hide Padding, PackOne;
    if buffers != [] {
      PackedLength(buffers[1..]);
      CeilToFour(|buffers[0]|);
      assert |PackOne(buffers[0])| == 4 + (|buffers[0]| + Padding(|buffers[0]|)) by { PackOneLength(buffers[0]); }
    }
  }

  // ----- The PCD value

  function HexChar(d: nat): char
    requires d < 16
  {
    if d < 10 then (d + '0' as int) as char else (d - 10 + 'A' as int) as char
  }

  function HexValue(c: char): Option<nat> {
    if '0' <= c <= '9' then Some(c as int - '0' as int)
    else if 'A' <= c <= 'F' then Some(c as int - 'A' as int + 10)
    else None
  }

  /** '0x{Byte:02X}' */
  function HexByte(b: Byte): (s: string)
    ensures |s| == 4
  {
    ['0', 'x', HexChar(b / 16), HexChar(b % 16)]
  }

  /** ', '.join */
  function Items(bytes: seq<Byte>): string {
    if bytes == [] then ""
    else if |bytes| == 1 then HexByte(bytes[0])
    else HexByte(bytes[0]) + (", " + Items(bytes[1..]))
  }

  function PrintBytes(bytes: seq<Byte>): string {
    "{" + Items(bytes) + "}"
  }

  function Flatten(buffers: seq<seq<Byte>>): seq<Byte> {
    if buffers == [] then [] else buffers[0] + Flatten(buffers[1..])
  }

  function ParseHexByte(s: string): Option<Byte>
    requires |s| == 4
  {
    match (HexValue(s[2]), HexValue(s[3]))
    case (Some(hi), Some(lo)) => if s[..2] == "0x" && hi < 16 && lo < 16 then Some(hi * 16 + lo) else None
    case _ => None
  }

  /** A byte list parser: items of the form 0xHH separated by a comma and a space. */
  function ParseItems(s: string): Option<seq<Byte>>
    decreases |s|
  {
    if |s| < 4 then None
    else
      match ParseHexByte(s[..4])
      case None => None
      case Some(b) =>
        if |s| == 4 then Some([b])
        else if !(", " <= s[4..]) then None
        else
          match ParseItems(s[6..])
          case None => None
          case Some(rest) => Some([b] + rest)
  }

  function ParseBytes(s: string): Option<seq<Byte>> {
    if |s| < 2 || s[0] != '{' || s[|s| - 1] != '}' then None
    else if |s| == 2 then Some([])
    else ParseItems(s[1..|s| - 1])
  }

  lemma HexByteRoundTrip(b: Byte)
    ensures ParseHexByte(HexByte(b)) == Some(b)
  {
    assert HexByte(b)[..2] == "0x";
  }

  lemma {:induction false} ItemsRoundTrip(bytes: seq<Byte>)
    requires bytes != []
    ensures ParseItems(Items(bytes)) == Some(bytes)
    decreases |bytes|
  {
    hide HexByte, ParseHexByte;
    var s := Items(bytes);
    HexByteRoundTrip(bytes[0]);
    assert s[..4] == HexByte(bytes[0]);
    if |bytes| == 1 {
      assert s == HexByte(bytes[0]) && bytes == [bytes[0]];
    } else {
      var rest := Items(bytes[1..]);
      assert s[4..] == ", " + rest;
      assert s[6..] == rest;
      ItemsRoundTrip(bytes[1..]);
      assert ", " <= s[4..];
      assert [bytes[0]] + bytes[1..] == bytes;
    }
  }

  /** The printed value is read back byte for byte, so the length that ByteArray reports is right. */
  lemma PrintedBytesRoundTrip(bytes: seq<Byte>)
    ensures ParseBytes(PrintBytes(bytes)) == Some(bytes)
  {
    hide ParseItems, HexByte;
    var s := PrintBytes(bytes);
    assert s[1..|s| - 1] == Items(bytes);
    if bytes != [] {
      ItemsRoundTrip(bytes);
      assert |Items(bytes)| >= 4;
    }
  }

  /**
   From the printed PCD value of an XDR encoding the original files can be recovered.
   */
  lemma PcdRoundTrip(buffers: seq<seq<Byte>>)
    requires Packable(buffers)
    ensures ParseBytes(PrintBytes(Packed(buffers))) == Some(Packed(buffers))
    ensures Unpack(ParseBytes(PrintBytes(Packed(buffers))).value) == Some(buffers)
  {
    PrintedBytesRoundTrip(Packed(buffers));
    UnpackInvertsPack(buffers);
  }

  /**
   ByteArray: the printed value and its length in bytes. Read back, the value is that many
   bytes: the files one behind the other, or an XDR stream that unpacks to them. It fails only
   on a file too long for XDR.
   */
  method ByteArray(buffers: seq<seq<Byte>>, xdr: bool) returns (value: Option<(string, nat)>)
    ensures value.None? <==> xdr && !Packable(buffers)
    ensures value.Some? ==>
              var bytes := ParseBytes(value.value.0);
              && bytes.Some?
              && |bytes.value| == value.value.1
              && (if xdr then Unpack(bytes.value) == Some(buffers) else bytes.value == Flatten(buffers))
    ensures value.Some? ==>
              value.value.0 == PrintBytes(if xdr then Packed(buffers) else Flatten(buffers))
  {
    hide ParseBytes, PrintBytes, Packed, Unpack, Flatten, Packable;
    var bytes;
    if xdr {
      var packed := XdrPackBuffer(buffers);
      if packed.None? {
        return None;
      }
      bytes := packed.value;
      PcdRoundTrip(buffers);
    } else {
      bytes := Flatten(buffers);
      PrintedBytesRoundTrip(bytes);
    }
    return Some((PrintBytes(bytes), |bytes|));
  }

  lemma {:induction false} FlattenConcat(a: seq<seq<Byte>>, b: seq<seq<Byte>>)
    ensures Flatten(a + b) == Flatten(a) + Flatten(b)
    decreases |a|
  {
    if a == [] {
      assert a + b == b;
    } else {
      assert (a + b)[1..] == a[1..] + b;
      FlattenConcat(a[1..], b);
    }
  }

  /** Section 4.10 of RFC 4506 on three bytes, and the notation of a PCD value. */
  lemma SmallExamples()
    ensures PackOne([1, 2, 3]) == [0, 0, 0, 3, 1, 2, 3, 0]
    ensures PrintBytes([0x0A, 0xFF]) == "{0x0A, 0xFF}"
    ensures Flatten([[1], [2, 3]]) == [1, 2, 3]
  {
    var bytes := [0x0A, 0xFF];
    assert bytes[1..] == [0xFF];
    assert HexByte(0x0A) == "0x0A" && HexByte(0xFF) == "0xFF";
    var buffers: seq<seq<Byte>> := [[1], [2, 3]];
    assert buffers[1..] == [[2, 3]] && [[2, 3]][1..] == [];
  }
}
