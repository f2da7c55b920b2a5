/** Core/Templates/DirectedGraph, HashEdgeKey: two vertex ids packed into one 64-bit word. */
module GraphKeys {
  import opened Bits
  import opened Bytes

  const TWO_32 := 0x1_0000_0000
  const TWO_63 := 0x8000_0000_0000_0000
  const TWO_64 := 0x1_0000_0000_0000_0000

  lemma Powers()
    ensures Pow2(32) == TWO_32 && Pow2(64) == TWO_64
  {
    assert Pow2(8) == 256;
    assert Pow2(16) == 0x1_0000;
    assert Pow2(24) == 0x100_0000;
    assert Pow2(32) == TWO_32;
    assert Pow2(40) == 0x100_0000_0000;
    assert Pow2(48) == 0x1_0000_0000_0000;
    assert Pow2(56) == 0x100_0000_0000_0000;
  }

  /** The conversion of an int32 to uint64 extends the sign. */
  function SignExtended(x: int32): uint64 {
    if x >= 0 then x else x + TWO_64
  }

  function HashEdgeKey(startId: uint64, endId: uint64): uint64 {
    Powers();
    BitOrBounds(startId * TWO_32 % TWO_64, endId, 64);
    BitOr(startId * TWO_32 % TWO_64, endId)
  }

  /** The key under which the graph looks for an edge. */
  function KeyOf(startId: int32, endId: int32): uint64 {
    HashEdgeKey(SignExtended(startId), SignExtended(endId))
  }

  /** What the bitwise key of any two int32s is: the sign-extended end id has all high bits set
      when it is negative, and then nothing of the start id is left. */
  lemma KeyValue(s: int32, e: int32)
    ensures KeyOf(s, e) == if e < 0 then e + TWO_64 else ToUnsigned(s) * TWO_32 + e
  {
    hide BitOr, Pow2;
    var high := ToUnsigned(s);
    Powers();
    ShiftedStart(s);
    if e < 0 {
      BitOrOfParts(high, TWO_32 - 1, e + TWO_32, 32);
      BitOrAllOnes(high, 32);
    } else {
      BitOrOfParts(high, 0, e, 32);
      BitOrZero(high);
    }
  }

  /** Shifting the sign-extended id left by 32 keeps its low 32 bits. */
  lemma ShiftedStart(s: int32)
    ensures SignExtended(s) * TWO_32 % TWO_64 == ToUnsigned(s) * TWO_32
  {
    if s < 0 {
      assert (s + TWO_64) * TWO_32 == (s + TWO_32) * TWO_32 + (TWO_32 - 1) * TWO_64;
    }
  }

  lemma KeyOfValidIds(s: int32, e: int32)
    requires 0 <= s && 0 <= e
    ensures KeyOf(s, e) == s * TWO_32 + e < TWO_63
  {
    hide KeyOf;
    KeyValue(s, e);
  }

  /** A negative id always sets the top bit of the key. */
  lemma KeyOfNegativeIds(s: int32, e: int32)
    requires s < 0 || e < 0
    ensures KeyOf(s, e) >= TWO_63
  {
    hide KeyOf;
    KeyValue(s, e);
  }

  /** Two pairs of int32s share a key exactly when they have the same end id and that is
      negative or the start ids are the same too. */
  lemma KeysCollideExactly(s: int32, e: int32, s': int32, e': int32)
    ensures KeyOf(s, e) == KeyOf(s', e') <==> e == e' && (e < 0 || s == s')
  {
    hide KeyOf;
    KeyValue(s, e);
    KeyValue(s', e');
    if e >= 0 && e' >= 0 && ToUnsigned(s) * TWO_32 + e == ToUnsigned(s') * TWO_32 + e' {
      assert (ToUnsigned(s) - ToUnsigned(s')) * TWO_32 == e' - e;
    }
  }

  /** Packed keys are exact: no other pair of int32s, negative ones included, shares the key
      of a pair of vertex ids. */
  lemma KeysAreExact(s: int32, e: int32, s': int32, e': int32)
    requires 0 <= s && 0 <= e
    ensures KeyOf(s, e) == KeyOf(s', e') <==> s == s' && e == e'
  {
    hide KeyOf;
    KeysCollideExactly(s, e, s', e');
  }

  /** Among negative end ids they are not: these two pairs collide. */
  lemma NegativeKeysCollide()
    ensures KeyOf(0, -1) == KeyOf(1, -1)
  {
    hide KeyOf;
    KeysCollideExactly(0, -1, 1, -1);
  }
}
