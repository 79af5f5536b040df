/**
 Bytes, little-endian words and flat memory, as the packed C structures see them.
 */
module Words {

  type Byte = b: int | 0 <= b < 0x100

  const TWO_16 := 0x1_0000
  const TWO_32 := 0x1_0000_0000
  const TWO_64 := 0x1_0000_0000_0000_0000

  type U32 = x: int | 0 <= x < 0x1_0000_0000
  type U64 = x: int | 0 <= x < 0x1_0000_0000_0000_0000

  /** Unsigned 64-bit addition and subtraction, which wrap. */
  function Add64(a: U64, b: U64): U64 {
    if a + b < TWO_64 then a + b else a + b - TWO_64
  }

  function Sub64(a: U64, b: U64): U64 {
    if b <= a then a - b else a + TWO_64 - b
  }

  /** Physical memory: every address reads as some byte, inside or outside the buffer of interest. */
  type Memory = nat -> Byte

  function Read16(mem: Memory, a: nat): nat {
    mem(a) + 0x100 * mem(a + 1)
  }

  function Read32(mem: Memory, a: nat): nat {
    Read16(mem, a) + TWO_16 * Read16(mem, a + 2)
  }

  /** The `n` bytes found at address `a`. */
  function Slice(mem: Memory, a: nat, n: nat): seq<Byte> {
    seq(n, i requires 0 <= i < n => mem(a + i))
  }

  function Le16(n: nat): (bytes: seq<Byte>)
    requires n < TWO_16
    ensures |bytes| == 2
  {
    [n % 0x100, n / 0x100]
  }

  function Le32(n: nat): (bytes: seq<Byte>)
    requires n < TWO_32
    ensures |bytes| == 4
  {
    Le16(n % TWO_16) + Le16(n / TWO_16)
  }

  /** The byte string `s` is stored at address `a`. */
  predicate At(mem: Memory, a: nat, s: seq<Byte>) {
    forall i :: 0 <= i < |s| ==> mem(a + i) == s[i]
  }

  lemma AtSplit(mem: Memory, a: nat, s: seq<Byte>, t: seq<Byte>)
    requires At(mem, a, s + t)
    ensures At(mem, a, s)
    ensures At(mem, a + |s|, t)
  {
    forall i | 0 <= i < |s| ensures mem(a + i) == s[i] {
      assert (s + t)[i] == s[i];
    }
    forall i | 0 <= i < |t| ensures mem(a + |s| + i) == t[i] {
      assert (s + t)[|s| + i] == t[i];
      assert a + |s| + i == a + (|s| + i);
    }
  }

  lemma SliceAt(mem: Memory, a: nat, s: seq<Byte>)
    requires At(mem, a, s)
    ensures Slice(mem, a, |s|) == s
  {
  }

  lemma ReadLe16(mem: Memory, a: nat, n: nat)
    requires n < TWO_16
    requires At(mem, a, Le16(n))
    ensures Read16(mem, a) == n
  {
    assert mem(a + 0) == Le16(n)[0];
    assert mem(a + 1) == Le16(n)[1];
  }

  lemma ReadLe32(mem: Memory, a: nat, n: nat)
    requires n < TWO_32
    requires At(mem, a, Le32(n))
    ensures Read32(mem, a) == n
  {
    AtSplit(mem, a, Le16(n % TWO_16), Le16(n / TWO_16));
    ReadLe16(mem, a, n % TWO_16);
    ReadLe16(mem, a + 2, n / TWO_16);
  }
}
