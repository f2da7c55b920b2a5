/** Core/Algorithm/SeptemBuffer: substring search in a buffer.

`BufferFailArray` builds the optimised ("strong") failure table of Knuth, Morris and Pratt in
place, reading entries of the very table it is filling; `BufferBuffer` searches with it;
`BufferBufferSyncword` is a plain scan for one 32-bit word.

A (pointer, length) pair that is only read is a `seq`; the table is an array. */
module BufferSearch {
  import opened Bytes

  const FAIL_CODE := -1

  // ----- what a search is for

  predicate OccursAt<T(==)>(pattern: seq<T>, text: seq<T>, at: int) {
    && 0 <= at
    && at + |pattern| <= |text|
    && text[at..at + |pattern|] == pattern
  }

  /** r is the least position where the pattern occurs, or FAIL_CODE when there is none. */
  ghost predicate IsFirstOccurrence<T>(pattern: seq<T>, text: seq<T>, r: int) {
    && (r != FAIL_CODE ==> OccursAt(pattern, text, r))
    && forall q :: OccursAt(pattern, text, q) ==> r != FAIL_CODE && r <= q
  }

  lemma FirstOccurrenceUnique<T>(pattern: seq<T>, text: seq<T>, r: int, r': int)
    requires IsFirstOccurrence(pattern, text, r)
    requires IsFirstOccurrence(pattern, text, r')
    ensures r == r'
  {
  }

  /** The first occurrence at or after `from`, by trying every position in turn. */
  function FirstFrom<T(==)>(pattern: seq<T>, text: seq<T>, from: nat): (r: int)
    ensures r == FAIL_CODE || (from <= r && OccursAt(pattern, text, r))
    ensures forall q :: from <= q && OccursAt(pattern, text, q) ==> r != FAIL_CODE && r <= q
    decreases |text| - from
  {
    if from + |pattern| > |text| then FAIL_CODE
    else if OccursAt(pattern, text, from) then from
    else if from == |text| then FAIL_CODE
    else FirstFrom(pattern, text, from + 1)
  }

  function FirstOccurrence<T(==)>(pattern: seq<T>, text: seq<T>): (r: int)
    ensures IsFirstOccurrence(pattern, text, r)
  {
    FirstFrom(pattern, text, 0)
  }

  // ----- borders and the strong failure table

  /** k is the length of a proper border of p[..j]: a prefix that is also a suffix. */
  predicate IsBorder<T(==)>(p: seq<T>, j: int, k: int) {
    0 <= k < j <= |p| && p[..k] == p[j - k..j]
  }

  lemma BorderOfBorder<T>(p: seq<T>, j: int, k: int, m: int)
    requires IsBorder(p, j, k)
    requires IsBorder(p, k, m)
    ensures IsBorder(p, j, m)
  {
    assert p[..m] == p[..k][k - m..] == p[j - k..j][k - m..] == p[j - m..j];
  }

  lemma ShorterBorder<T>(p: seq<T>, j: int, k: int, m: int)
    requires IsBorder(p, j, k)
    requires IsBorder(p, j, m)
    requires m < k
    ensures IsBorder(p, k, m)
  {
    assert p[k - m..k] == p[..k][k - m..] == p[j - k..j][k - m..] == p[j - m..j];
  }

  lemma BorderExtends<T>(p: seq<T>, j: int, k: int)
    requires 0 <= k < j < |p|
    ensures IsBorder(p, j + 1, k + 1) <==> IsBorder(p, j, k) && p[k] == p[j]
  {
    assert p[..k + 1] == p[..k] + [p[k]];
    assert p[j - k..j + 1] == p[j - k..j] + [p[j]];
    if IsBorder(p, j + 1, k + 1) {
      assert p[..k] == p[..k + 1][..k] == p[j - k..j + 1][..k] == p[j - k..j];
      assert p[..k + 1][k] == p[j - k..j + 1][k];
    }
  }

  ghost predicate IsLongestBorder<T>(p: seq<T>, j: int, b: int) {
    && IsBorder(p, j, b)
    && forall k :: IsBorder(p, j, k) ==> k <= b
  }

  /** The entry the table must hold for j: the longest border of p[..j] whose next element
      differs from p[j], or -1 if every border is followed by p[j] again. */
  ghost predicate IsStrongFail<T>(p: seq<T>, j: int, f: int)
    requires 0 <= j < |p|
  {
    && -1 <= f < j
    && (f >= 0 ==> IsBorder(p, j, f) && p[f] != p[j])
    && forall k :: f < k < j && IsBorder(p, j, k) ==> p[k] == p[j]
  }

  lemma StrongFailUnique<T>(p: seq<T>, j: int, f: int, g: int)
    requires 0 <= j < |p|
    requires IsStrongFail(p, j, f) && IsStrongFail(p, j, g)
    ensures f == g
  {
  }

  ghost predicate IsFailTable<T>(p: seq<T>, table: seq<int>) {
    && |table| <= |p|
    && forall j :: 0 <= j < |table| ==> IsStrongFail(p, j, table[j])
  }

  /** t is the only length at which a border of p[..i] may still turn into one of p[..i + 1]
      without having been ruled out: no longer border of p[..i] is followed by p[i]. */
  ghost predicate IsCandidate<T>(p: seq<T>, i: int, t: int)
    requires 0 <= i < |p|
  {
    && -1 <= t < i
    && (t >= 0 ==> IsBorder(p, i, t))
    && forall k :: t < k < i && IsBorder(p, i, k) ==> p[k] != p[i]
  }

  /** The fallback `failIndex = fail[failIndex]` keeps the candidate property. */
  lemma FallBack<T>(p: seq<T>, i: int, t: int, f: int)
    requires 0 <= t < i < |p|
    requires IsCandidate(p, i, t) && p[i] != p[t]
    requires IsStrongFail(p, t, f)
    ensures IsCandidate(p, i, f)
  {
    if f >= 0 {
      BorderOfBorder(p, i, t, f);
    }
    forall k | f < k < i && IsBorder(p, i, k)
      ensures p[k] != p[i]
    {
      if k < t {
        ShorterBorder(p, i, t, k);
      }
    }
  }

  /** When the candidate does extend, it is the longest border of the longer prefix. */
  lemma Advance<T>(p: seq<T>, i: int, t: int)
    requires 0 <= i && i + 1 < |p|
    requires IsCandidate(p, i, t)
    requires t == -1 || p[i] == p[t]
    ensures IsLongestBorder(p, i + 1, t + 1)
  {
    if t >= 0 {
      BorderExtends(p, i, t);
    } else {
      assert p[..0] == p[i + 1..i + 1];
    }
    var j := i + 1;
    forall k | IsBorder(p, j, k)
      ensures k <= t + 1
    {
      if k > 0 {
        BorderExtends(p, i, k - 1);
      }
    }
  }

  /** The entry written for `index + 1`, in both branches of lines 43-49. */
  lemma NewEntry<T>(p: seq<T>, j: int, b: int, f: int)
    requires 0 <= b < j < |p|
    requires IsLongestBorder(p, j, b)
    requires if p[j] == p[b] then IsStrongFail(p, b, f) else f == b
    ensures IsStrongFail(p, j, f)
  {
    if p[j] == p[b] {
      if f >= 0 {
        BorderOfBorder(p, j, b, f);
      }
      forall k | f < k < j && IsBorder(p, j, k)
        ensures p[k] == p[j]
      {
        if k < b {
          ShorterBorder(p, j, b, k);
        }
      }
    }
  }

  method BufferFailArray<T(==)>(buffer: seq<T>, fail: array<int>) returns (ghost steps: nat)
    requires 0 < |buffer| == fail.Length
    modifies fail
    ensures IsFailTable(buffer, fail[..])
    ensures steps <= 2 * |buffer|
  {
    fail[0] := -1;
    var index := 0;
    var failIndex := -1;
    steps := 0;
    while index + 1 < |buffer|
      invariant 0 <= index < |buffer|
      invariant IsCandidate(buffer, index, failIndex)
      invariant IsFailTable(buffer, fail[..index + 1])
      invariant steps < 2 * index - failIndex
      decreases 2 * |buffer| - (2 * index - failIndex)
    {
      steps := steps + 1;
      ghost var table := fail[..index + 1];
      if failIndex == -1 || buffer[index] == buffer[failIndex] {
        Advance(buffer, index, failIndex);
        index, failIndex := index + 1, failIndex + 1;
        if buffer[index] == buffer[failIndex] {
          fail[index] := fail[failIndex];
        } else {
          fail[index] := failIndex;
        }
        NewEntry(buffer, index, failIndex, fail[index]);
        assert fail[..index + 1] == table + [fail[index]];
      } else {
        FallBack(buffer, index, failIndex, fail[failIndex]);
        failIndex := fail[failIndex];
      }
    }
  }

  // ----- the search

  /** The first j elements of the pattern match the text just before i, and the pattern occurs
      nowhere to the left of that alignment. */
  ghost predicate Aligned<T>(pattern: seq<T>, text: seq<T>, i: int, j: int) {
    && -1 <= j <= i <= |text|
    && j <= |pattern|
    && (j >= 0 ==> pattern[..j] == text[i - j..i])
    && forall q :: q < i - j ==> !OccursAt(pattern, text, q)
  }

  /** Where an occurrence overlaps the text matched so far, the overlap is a border of it (or
      all of it), and the element behind the overlap is the one the text has there. */
  lemma OverlapIsBorder<T>(pattern: seq<T>, text: seq<T>, i: int, j: int, q: int)
    requires 0 <= j < |pattern| && j <= i < |text|
    requires pattern[..j] == text[i - j..i]
    requires OccursAt(pattern, text, q) && i - j <= q <= i
    ensures pattern[i - q] == text[i]
    ensures q > i - j ==> IsBorder(pattern, j, i - q)
  {
    var k := i - q;
    var found := text[q..q + |pattern|];
    assert text[i] == found[k];
    assert pattern[..k] == found[..k] == text[q..i] == text[i - j..i][j - k..];
    assert text[i - j..i][j - k..] == pattern[..j][j - k..] == pattern[j - k..j];
  }

  /** On a mismatch, the jump to the strong failure entry skips no occurrence. */
  lemma JumpSkipsNothing<T>(pattern: seq<T>, text: seq<T>, i: int, j: int, f: int)
    requires 0 <= j < |pattern| && 0 <= i < |text|
    requires Aligned(pattern, text, i, j)
    requires text[i] != pattern[j]
    requires IsStrongFail(pattern, j, f)
    ensures Aligned(pattern, text, i, f)
  {
    if f >= 0 {
      assert pattern[..f] == pattern[j - f..j] == pattern[..j][j - f..] == text[i - j..i][j - f..] == text[i - f..i];
    }
    forall q | OccursAt(pattern, text, q)
      ensures i - f <= q
    {
      if i - j <= q <= i {
        OverlapIsBorder(pattern, text, i, j, q);
      }
    }
  }

  method BufferBuffer<T(==)>(M: seq<T>, N: seq<T>) returns (r: int, ghost steps: nat)
    ensures N != [] ==> r == FirstOccurrence(N, M)
    ensures N == [] ==> r == FAIL_CODE
    ensures steps <= 2 * |M|
  {
    var i := 0;
    var j := 0;
    steps := 0;
    if |M| <= 0 || |N| <= 0 {
      return FAIL_CODE, 0;
    }
    var fail := new int[|N|];
    ghost var _ := BufferFailArray(N, fail);
    while i < |M| && j < |N|
      invariant IsFailTable(N, fail[..])
      invariant Aligned(N, M, i, j)
      invariant j == -1 ==> i < |M|
      invariant steps <= 2 * i - j
      decreases 2 * |M| - (2 * i - j)
    {
      steps := steps + 1;
      if j == -1 || M[i] == N[j] {
        assert j >= 0 ==> N[..j + 1] == N[..j] + [N[j]] == M[i - j..i] + [M[i]] == M[i - j..i + 1];
        i, j := i + 1, j + 1;
      } else {
        JumpSkipsNothing(N, M, i, j, fail[j]);
        j := fail[j];
      }
    }
    r := if |N| == j then i - |N| else FAIL_CODE;
    assert IsFirstOccurrence(N, M, r);
    FirstOccurrenceUnique(N, M, r, FirstOccurrence(N, M));
  }

  // ----- the word scan

  /** The text the scan below really searches: its loop stops one position early. */
  function AllButLast<T>(s: seq<T>): seq<T> {
    if s == [] then [] else s[..|s| - 1]
  }

  lemma OccursInAllButLast<T>(pattern: seq<T>, text: seq<T>, at: int)
    ensures OccursAt(pattern, AllButLast(text), at) <==>
            OccursAt(pattern, text, at) && (at + |pattern| < |text| || text == [])
  {
    if 0 <= at && at + |pattern| < |text| {
      assert AllButLast(text)[at..at + |pattern|] == text[at..at + |pattern|];
    }
  }

  method BufferBufferSyncword(buffer: seq<byte>, syncword: int32) returns (r: int)
    ensures r == FirstOccurrence(I32Bytes(syncword), AllButLast(buffer))
  {
    ghost var word := I32Bytes(syncword);
    var index := 0;
    var maxdex := |buffer| - 4;
    while index < maxdex
      invariant 0 <= index && (index <= maxdex || index == 0)
      invariant forall q :: q < index ==> !OccursAt(word, buffer, q)
    {
      WordIsItsBytes(buffer[index..index + 4], syncword);
      if ReadI32(buffer[index..index + 4]) == syncword {
        OccursInFirst(word, buffer, index);
        return index;
      }
      index := index + 1;
    }
    OccursInFirst(word, buffer, FAIL_CODE);
    return FAIL_CODE;
  }

  /** A least position in the whole text, other than the last possible one, is what the
      shortened text gives. */
  lemma OccursInFirst<T>(pattern: seq<T>, text: seq<T>, r: int)
    requires pattern != []
    requires r == FAIL_CODE || (OccursAt(pattern, text, r) && r + |pattern| < |text|)
    requires forall q :: OccursAt(pattern, text, q) && q + |pattern| < |text| ==> r != FAIL_CODE && r <= q
    ensures r == FirstOccurrence(pattern, AllButLast(text))
  {
    forall q
      ensures OccursAt(pattern, AllButLast(text), q) <==> OccursAt(pattern, text, q) && q + |pattern| < |text|
    {
      OccursInAllButLast(pattern, text, q);
    }
    FirstOccurrenceUnique(pattern, AllButLast(text), r, FirstOccurrence(pattern, AllButLast(text)));
  }

  /** The scan differs from a full search in one case only: when the first occurrence is at
      the very last position, it is reported as missing. */
  lemma ScanMissesOnlyTheLastPosition<T>(pattern: seq<T>, text: seq<T>)
    requires pattern != []
    ensures var full := FirstOccurrence(pattern, text);
            FirstOccurrence(pattern, AllButLast(text))
            == if full + |pattern| == |text| then FAIL_CODE else full
  {
    var full := FirstOccurrence(pattern, text);
    OccursInFirst(pattern, text, if full + |pattern| == |text| then FAIL_CODE else full);
  }
}
