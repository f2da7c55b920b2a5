/** Bytes in memory: the XOR fold used as a seal, and little-endian integers.

A byte is a `bv8`, so that `^` is the machine's own operation.  Integers wider than a byte
are unbounded `int`s restricted to their C++ range; this module says how they lie in memory. */
module Bytes {

  type byte = bv8
  type int32 = x: int | -0x8000_0000 <= x < 0x8000_0000
  type uint16 = x: int | 0 <= x < 0x1_0000
  type uint32 = x: int | 0 <= x < 0x1_0000_0000
  type uint64 = x: int | 0 <= x < 0x1_0000_0000_0000_0000

  // ----- the XOR of all bytes of a block

  function Xor(a: byte, b: byte): byte {
    a ^ b
  }

  function XorFold(s: seq<byte>): (r: byte)
    ensures s == [] ==> r == 0
  {
    if |s| == 0 then 0 else Xor(XorFold(s[..|s| - 1]), s[|s| - 1])
  }

  lemma {:induction false} XorFoldConcat(s: seq<byte>, t: seq<byte>)
    ensures XorFold(s + t) == Xor(XorFold(s), XorFold(t))
  {
    if t == [] {
      assert s + t == s;
    } else {
      var u := t[..|t| - 1];
      assert (s + t)[..|s + t| - 1] == s + u;
      XorFoldConcat(s, u);
    }
  }

  /** Overwriting one byte changes the fold by exactly the difference of the two bytes. */
  lemma XorFoldUpdate(s: seq<byte>, i: nat, b: byte)
    requires i < |s|
    ensures XorFold(s[i := b]) == Xor(Xor(XorFold(s), s[i]), b)
  {
    hide Xor, XorFold;
    var pre, post := s[..i], s[i + 1..];
    assert s == pre + [s[i]] + post;
    assert s[i := b] == pre + [b] + post;
    XorFoldConcat(pre + [s[i]], post);
    XorFoldConcat(pre, [s[i]]);
    XorFoldConcat(pre + [b], post);
    XorFoldConcat(pre, [b]);
    XorFoldSingle(s[i]);
    XorFoldSingle(b);
    XorExchange(XorFold(pre), s[i], XorFold(post), b);
  }

  /** So a block that folds to 0 no longer does once one of its bytes has changed. */
  lemma XorFoldDamaged(s: seq<byte>, i: nat, b: byte)
    requires i < |s| && XorFold(s) == 0 && s[i] != b
    ensures XorFold(s[i := b]) != 0
  {
    hide Xor, XorFold;
    XorFoldUpdate(s, i, b);
    XorZeroMeansEqual(s[i], b);
  }

  lemma XorZeroMeansEqual(x: byte, y: byte)
    ensures Xor(Xor(0, x), y) == 0 <==> x == y
  {
  }

  lemma XorExchange(front: byte, x: byte, back: byte, y: byte)
    ensures Xor(Xor(front, y), back) == Xor(Xor(Xor(Xor(front, x), back), x), y)
  {
  }

  lemma XorFoldSingle(b: byte)
    ensures XorFold([b]) == b
  {
    assert [b][..0] == [];
  }

  lemma {:induction false} XorFoldZeros(s: seq<byte>)
    requires forall i :: 0 <= i < |s| ==> s[i] == 0
    ensures XorFold(s) == 0
  {
    if s != [] {
      XorFoldZeros(s[..|s| - 1]);
    }
  }

  // ----- little-endian integers

  function Pow256(k: nat): nat {
    if k == 0 then 1 else 256 * Pow256(k - 1)
  }

  /** The low k bytes of n, least significant first. */
  function LeBytes(n: nat, k: nat): (b: seq<byte>)
    ensures |b| == k
  {
    if k == 0 then [] else [(n % 256) as byte] + LeBytes(n / 256, k - 1)
  }

  function LeValue(b: seq<byte>): nat {
    if |b| == 0 then 0 else b[0] as int + 256 * LeValue(b[1..])
  }

  lemma IntOfByte(b: byte)
    ensures (b as int) as byte == b
  {
  }

  lemma NextByte(b: byte)
    requires b != 255
    ensures (b + 1) as int == b as int + 1
  {
  }

  /** The byte of value n, found by counting. */
  ghost function Counted(n: int): (b: byte)
    requires 0 <= n < 256
    ensures b as int == n
  {
    if n == 0 then 0
    else
      NextByte(Counted(n - 1));
      Counted(n - 1) + 1
  }

  lemma ByteOfInt(n: int)
    requires 0 <= n < 256
    ensures (n as byte) as int == n
  {
    IntOfByte(Counted(n));
  }

  lemma {:induction false} LeValueOfBytes(n: nat, k: nat)
    requires n < Pow256(k)
    ensures LeValue(LeBytes(n, k)) == n
  {
    if k > 0 {
      LeValueOfBytes(n / 256, k - 1);
      ByteOfInt(n % 256);
    }
  }

  lemma {:induction false} LeValueConcat(a: seq<byte>, b: seq<byte>)
    ensures LeValue(a + b) == LeValue(a) + Pow256(|a|) * LeValue(b)
  {
    if a == [] {
      assert a + b == b;
    } else {
      LeValueConcat(a[1..], b);
      assert LeValue(a + b) == a[0] as int + 256 * LeValue(a[1..] + b) by {
        assert (a + b)[1..] == a[1..] + b;
      }
      Regroup(a[0] as int, LeValue(a[1..]), Pow256(|a| - 1), LeValue(b));
    }
  }

  lemma Regroup(x: int, v: int, p: int, w: int)
    ensures x + 256 * (v + p * w) == x + 256 * v + 256 * p * w
  {
  }

  lemma {:induction false} LeValueBound(b: seq<byte>)
    ensures LeValue(b) < Pow256(|b|)
  {
    if |b| > 0 {
      LeValueBound(b[1..]);
    }
  }

  lemma LeBytesCons(low: byte, high: nat, k: nat)
    ensures LeBytes(low as int + 256 * high, k + 1) == [low] + LeBytes(high, k)
  {
    DivModByte(low as int, high);
    IntOfByte(low);
  }

  lemma {:induction false} LeBytesOfValue(b: seq<byte>)
    ensures LeBytes(LeValue(b), |b|) == b
  {
    if |b| > 0 {
      hide LeBytes;
      LeBytesOfValue(b[1..]);
      LeBytesCons(b[0], LeValue(b[1..]), |b| - 1);
      assert b == [b[0]] + b[1..];
    }
  }

  lemma DivModByte(low: int, high: nat)
    requires 0 <= low < 256
    ensures (low + 256 * high) % 256 == low && (low + 256 * high) / 256 == high
  {
  }

  // Sizes the formats use.  The bounds are what makes the reads below total.

  lemma WidthBounds()
    ensures Pow256(2) == 0x1_0000
    ensures Pow256(4) == 0x1_0000_0000
    ensures Pow256(8) == 0x1_0000_0000_0000_0000
  {
    assert Pow256(4) == 256 * (256 * Pow256(2));
    assert Pow256(8) == 256 * (256 * (256 * (256 * Pow256(4))));
  }

  function ReadU16(b: seq<byte>): uint16
    requires |b| == 2
  {
    WidthBounds(); LeValueBound(b);
    LeValue(b)
  }

  function ReadU32(b: seq<byte>): uint32
    requires |b| == 4
  {
    WidthBounds(); LeValueBound(b);
    LeValue(b)
  }

  function ReadU64(b: seq<byte>): uint64
    requires |b| == 8
  {
    WidthBounds(); LeValueBound(b);
    LeValue(b)
  }

  /** Two's complement: an int32 is stored as the uint32 congruent to it modulo 2^32. */
  function ToUnsigned(x: int32): uint32 {
    if x >= 0 then x else x + 0x1_0000_0000
  }

  function ToSigned(u: uint32): int32 {
    if u < 0x8000_0000 then u else u - 0x1_0000_0000
  }

  function I32Bytes(x: int32): (b: seq<byte>)
    ensures |b| == 4
  {
    LeBytes(ToUnsigned(x), 4)
  }

  function ReadI32(b: seq<byte>): int32
    requires |b| == 4
  {
    ToSigned(ReadU32(b))
  }

  // What a word means, byte by byte: the first byte is the least significant one.

  function Word16(b: seq<byte>, at: nat): nat
    requires at + 2 <= |b|
  {
    b[at] as int + 0x100 * b[at + 1] as int
  }

  function Word32(b: seq<byte>, at: nat): nat
    requires at + 4 <= |b|
  {
    Word16(b, at) + 0x1_0000 * Word16(b, at + 2)
  }

  function Word64(b: seq<byte>, at: nat): nat
    requires at + 8 <= |b|
  {
    Word32(b, at) + 0x1_0000_0000 * Word32(b, at + 4)
  }

  function SignedWord32(b: seq<byte>, at: nat): int
    requires at + 4 <= |b|
  {
    if Word32(b, at) < 0x8000_0000 then Word32(b, at) else Word32(b, at) - 0x1_0000_0000
  }

  lemma WordsOfSlice(b: seq<byte>, at: nat, n: nat, i: nat)
    requires at + n <= |b| && i + 4 <= n
    ensures Word16(b[at..at + n], i) == Word16(b, at + i)
    ensures Word32(b[at..at + n], i) == Word32(b, at + i)
    ensures SignedWord32(b[at..at + n], i) == SignedWord32(b, at + i)
  {
  }

  lemma Word64OfSlice(b: seq<byte>, at: nat, n: nat, i: nat)
    requires at + n <= |b| && i + 8 <= n
    ensures Word64(b[at..at + n], i) == Word64(b, at + i)
  {
    WordsOfSlice(b, at, n, i); WordsOfSlice(b, at, n, i + 4);
  }

  lemma U16IsWord(b: seq<byte>)
    requires |b| == 2
    ensures ReadU16(b) == Word16(b, 0)
  {
    assert LeValue(b[1..]) == b[1] as int;
  }

  lemma U32IsWord(b: seq<byte>)
    requires |b| == 4
    ensures ReadU32(b) == Word32(b, 0)
  {
    assert b == b[..2] + b[2..];
    LeValueConcat(b[..2], b[2..]);
    U16IsWord(b[..2]); U16IsWord(b[2..]);
    WidthBounds();
  }

  lemma I32IsWord(b: seq<byte>)
    requires |b| == 4
    ensures ReadI32(b) == SignedWord32(b, 0)
  {
    U32IsWord(b);
  }

  lemma U64IsWord(b: seq<byte>)
    requires |b| == 8
    ensures ReadU64(b) == Word64(b, 0)
  {
    assert b == b[..4] + b[4..];
    LeValueConcat(b[..4], b[4..]);
    U32IsWord(b[..4]); U32IsWord(b[4..]);
    WidthBounds();
  }

  lemma ReadBack16(x: uint16)
    ensures ReadU16(LeBytes(x, 2)) == x
  {
    WidthBounds(); LeValueOfBytes(x, 2);
  }

  lemma ReadBack32(x: uint32)
    ensures ReadU32(LeBytes(x, 4)) == x
  {
    WidthBounds(); LeValueOfBytes(x, 4);
  }

  lemma ReadBack64(x: uint64)
    ensures ReadU64(LeBytes(x, 8)) == x
  {
    WidthBounds(); LeValueOfBytes(x, 8);
  }

  lemma ReadBackI32(x: int32)
    ensures ReadI32(I32Bytes(x)) == x
  {
    ReadBack32(ToUnsigned(x));
  }

  /** Reading a word and comparing it is the same as comparing the four bytes. */
  lemma WordIsItsBytes(b: seq<byte>, x: int32)
    requires |b| == 4
    ensures ReadI32(b) == x <==> b == I32Bytes(x)
  {
    ReadBackI32(x);
    LeBytesOfValue(b);
  }
}
