/** Bytes, big-endian words and the 4-byte padding rule shared by writer and reader. */
module Bytes {

  type Byte = b: int | 0 <= b < 0x100
  type UInt32 = x: int | 0 <= x < 0x1_0000_0000

  /** A 64-bit word, as its two halves. */
  datatype UInt64 = UInt64(high: UInt32, low: UInt32)

  const NUL: Byte := 0

  /** The n low-order bytes of x, most significant first. */
  function BigEndian(x: nat, n: nat): (s: seq<Byte>)
    ensures |s| == n
  {
    if n == 0 then [] else BigEndian(x / 0x100, n - 1) + [x % 0x100]
  }

  /** The n low-order bytes of x, least significant first. */
  function LittleEndian(x: nat, n: nat): (s: seq<Byte>)
    ensures |s| == n
  {
    if n == 0 then [] else [x % 0x100] + LittleEndian(x / 0x100, n - 1)
  }

  function Exp256(n: nat): nat {
    if n == 0 then 1 else 0x100 * Exp256(n - 1)
  }

  /** The unsigned number whose n bytes at offset p are stored most significant first. */
  function ReadBig(m: seq<Byte>, p: nat, n: nat): nat
    requires p + n <= |m|
  {
    if n == 0 then 0 else
      var last: int := m[p + n - 1];
      ReadBig(m, p, n - 1) * 0x100 + last
  }

  function ReadLittle(m: seq<Byte>, p: nat, n: nat): nat
    requires p + n <= |m|
    decreases n
  {
    if n == 0 then 0 else
      var first: int := m[p];
      ReadLittle(m, p + 1, n - 1) * 0x100 + first
  }

  lemma {:induction false} ReadBigBound(m: seq<Byte>, p: nat, n: nat)
    requires p + n <= |m|
    ensures ReadBig(m, p, n) < Exp256(n)
  {
    if n > 0 {
      ReadBigBound(m, p, n - 1);
    }
  }

  /** Reading back a stored word gives the word, in either byte order. */
  lemma {:induction false} BigEndianRoundTrip(m: seq<Byte>, p: nat, x: nat, n: nat)
    requires p + n <= |m| && m[p..p + n] == BigEndian(x, n) && x < Exp256(n)
    ensures ReadBig(m, p, n) == x
  {
    if n > 0 {
      var s := BigEndian(x, n);
      assert m[p + n - 1] == s[n - 1];
      assert m[p..p + n - 1] == s[..n - 1] == BigEndian(x / 0x100, n - 1);
      BigEndianRoundTrip(m, p, x / 0x100, n - 1);
    }
  }

  lemma {:induction false} LittleEndianRoundTrip(m: seq<Byte>, p: nat, x: nat, n: nat)
    requires p + n <= |m| && m[p..p + n] == LittleEndian(x, n) && x < Exp256(n)
    ensures ReadLittle(m, p, n) == x
    decreases n
  {
    if n > 0 {
      var s := LittleEndian(x, n);
      assert m[p] == m[p..p + n][0] == s[0];
      assert m[p + 1..p + n] == m[p..p + n][1..] == s[1..] == LittleEndian(x / 0x100, n - 1);
      LittleEndianRoundTrip(m, p + 1, x / 0x100, n - 1);
    }
  }

  lemma WordBound()
    ensures Exp256(4) == 0x1_0000_0000
  {
    assert Exp256(2) == 0x1_0000;
  }

  /** FromUInt32 and FromInt32: the two's complement word, most significant byte first. */
  function Word32(x: UInt32): (s: seq<Byte>)
    ensures |s| == 4
  {
    BigEndian(x, 4)
  }

  function ReadWord32(m: seq<Byte>, p: nat): UInt32
    requires p + 4 <= |m|
  {
    WordBound();
    ReadBigBound(m, p, 4);
    ReadBig(m, p, 4)
  }

  lemma Word32RoundTrip(m: seq<Byte>, p: nat, x: UInt32)
    requires p + 4 <= |m| && m[p..p + 4] == Word32(x)
    ensures ReadWord32(m, p) == x
  {
    WordBound();
    BigEndianRoundTrip(m, p, x, 4);
  }

  /** FromUInt64 and FromInt64. */
  function Word64(x: UInt64): (s: seq<Byte>)
    ensures |s| == 8
  {
    Word32(x.high) + Word32(x.low)
  }

  function ReadWord64(m: seq<Byte>, p: nat): UInt64
    requires p + 8 <= |m|
  {
    UInt64(ReadWord32(m, p), ReadWord32(m, p + 4))
  }

  lemma Word64RoundTrip(m: seq<Byte>, p: nat, x: UInt64)
    requires p + 8 <= |m| && m[p..p + 8] == Word64(x)
    ensures ReadWord64(m, p) == x
  {
    assert m[p..p + 4] == m[p..p + 8][..4] == Word32(x.high);
    assert m[p + 4..p + 8] == m[p..p + 8][4..] == Word32(x.low);
    Word32RoundTrip(m, p, x.high);
    Word32RoundTrip(m, p + 4, x.low);
  }

  /** A plain 32-bit store, in the byte order of the host. */
  function HostWord(littleEndianHost: bool, x: UInt32): (s: seq<Byte>)
    ensures |s| == 4
  {
    if littleEndianHost then LittleEndian(x, 4) else BigEndian(x, 4)
  }

  function ReadHostWord(littleEndianHost: bool, m: seq<Byte>, p: nat): nat
    requires p + 4 <= |m|
  {
    if littleEndianHost then ReadLittle(m, p, 4) else ReadBig(m, p, 4)
  }

  /** A little-endian host stores the low byte first, a big-endian one last. */
  lemma LowByte(littleEndianHost: bool, x: UInt32)
    ensures HostWord(littleEndianHost, x)[if littleEndianHost then 0 else 3] == x % 0x100
  {
  }

  lemma HostWordRoundTrip(littleEndianHost: bool, m: seq<Byte>, p: nat, x: UInt32)
    requires p + 4 <= |m| && m[p..p + 4] == HostWord(littleEndianHost, x)
    ensures ReadHostWord(littleEndianHost, m, p) == x
    ensures m[if littleEndianHost then p else p + 3] == x % 0x100
  {
    WordBound();
    LowByte(littleEndianHost, x);
    assert m[p..p + 4][0] == m[p] && m[p..p + 4][3] == m[p + 3];
    if littleEndianHost {
      LittleEndianRoundTrip(m, p, x, 4);
    } else {
      BigEndianRoundTrip(m, p, x, 4);
    }
  }

  /** The first multiple of four that is not below x. */
  function RoundUp4(x: nat): (r: nat)
    ensures x <= r < x + 4
  {
    4 * ((x + 3) / 4)
  }

  /** The writer's ((x-1) & ~3) + 4 and the reader's remainder test are this same rounding. */
  lemma RoundUp4Forms(x: nat)
    ensures RoundUp4(x) == (x - 1) / 4 * 4 + 4
    ensures RoundUp4(x) == if x % 4 != 0 then x + (4 - x % 4) else x
  {
  }

  /** Bytes followed by the zeros that take them to a 4-byte boundary. */
  function Padded(s: seq<Byte>): (r: seq<Byte>)
    ensures |r| == RoundUp4(|s|)
    decreases RoundUp4(|s|) - |s|
  {
    if |s| % 4 == 0 then s else Padded(s + [NUL])
  }

  lemma {:induction false} PaddedStart(s: seq<Byte>)
    ensures Padded(s)[..|s|] == s
    ensures forall i :: |s| <= i < |Padded(s)| ==> Padded(s)[i] == NUL
    decreases RoundUp4(|s|) - |s|
  {
    if |s| % 4 != 0 {
      PaddedStart(s + [NUL]);
      assert Padded(s)[..|s|] == Padded(s + [NUL])[..|s| + 1][..|s|];
      assert Padded(s)[|s|] == Padded(s + [NUL])[..|s| + 1][|s|];
    }
  }

  /** An OSC-string: the characters, one NUL at least, zeros to a 4-byte boundary. */
  function OscString(s: seq<Byte>): (r: seq<Byte>)
    ensures |r| == RoundUp4(|s| + 1)
  {
    Padded(s + [NUL])
  }

  lemma OscStringIs(s: seq<Byte>, r: seq<Byte>)
    requires |r| == RoundUp4(|s| + 1) && r[..|s|] == s
    requires forall i :: |s| <= i < |r| ==> r[i] == NUL
    ensures r == OscString(s)
  {
    PaddedStart(s + [NUL]);
    assert forall i :: 0 <= i < |s| ==> OscString(s)[i] == OscString(s)[..|s| + 1][i];
    assert forall i :: 0 <= i < |s| ==> r[i] == r[..|s|][i];
    assert OscString(s)[|s|] == OscString(s)[..|s| + 1][|s|];
  }

  predicate NulFree(s: seq<Byte>)
  {
    NUL !in s
  }

  /** The C string that starts at offset p: everything before the first NUL. */
  function CString(m: seq<Byte>, p: nat): (s: seq<Byte>)
    requires p <= |m|
    ensures NulFree(s)
    decreases |m| - p
  {
    if p == |m| || m[p] == NUL then [] else [m[p]] + CString(m, p + 1)
  }

  lemma {:induction false} CStringReads(m: seq<Byte>, p: nat, s: seq<Byte>)
    requires NulFree(s) && p + |s| < |m| && m[p..p + |s|] == s && m[p + |s|] == NUL
    ensures CString(m, p) == s
    decreases |s|
  {
    if s != [] {
      assert m[p] == m[p..p + |s|][0] == s[0];
      assert s[0] in s;
      assert m[p + 1..p + |s|] == m[p..p + |s|][1..] == s[1..];
      CStringReads(m, p + 1, s[1..]);
    }
  }

  lemma Associate(a: seq<Byte>, b: seq<Byte>, c: seq<Byte>)
    ensures a + (b + c) == (a + b) + c
  {
  }
}
