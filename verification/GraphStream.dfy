/** Core/Templates/DirectedGraph, Seriallize and Deseriallize: the graph as a byte stream.

The weights and vertex values are of types of fixed size whose bytes can be copied back. */
module GraphStream {
  import opened Bytes
  import opened GraphKeys
  import opened GraphModel

  datatype Codec<!T> = Codec(size: nat, enc: T -> seq<byte>, dec: seq<byte> -> T)

  ghost predicate Lawful<T(!new)>(c: Codec<T>) {
    forall x :: |c.enc(x)| == c.size && c.dec(c.enc(x)) == x
  }

  // ----- records in memory

  function VertexBytes<VT>(c: Codec<VT>): TVertex<VT> -> seq<byte> {
    (v: TVertex<VT>) => I32Bytes(v.Index) + c.enc(v.Value)
  }

  function ReadVertex<VT>(c: Codec<VT>, b: seq<byte>): TVertex<VT>
    requires |b| >= 4
  {
    TVertex(ReadI32(b[..4]), c.dec(b[4..]))
  }

  function KeyBytes(): uint64 -> seq<byte> {
    (k: uint64) => LeBytes(k, 8)
  }

  function EdgeBytes<ET>(c: Codec<ET>): TEdge<ET> -> seq<byte> {
    (e: TEdge<ET>) => I32Bytes(e.StartId) + I32Bytes(e.EndId) + c.enc(e.Weight)
  }

  function ReadEdge<ET>(c: Codec<ET>, b: seq<byte>): TEdge<ET>
    requires |b| >= 8
  {
    TEdge(ReadI32(b[..4]), ReadI32(b[4..8]), c.dec(b[8..]))
  }

  lemma VertexReadBack<VT(!new)>(c: Codec<VT>, v: TVertex<VT>)
    requires Lawful(c)
    ensures |VertexBytes(c)(v)| == 4 + c.size
    ensures ReadVertex(c, VertexBytes(c)(v)) == v
  {
    ReadBackI32(v.Index);
    assert VertexBytes(c)(v)[..4] == I32Bytes(v.Index);
    assert VertexBytes(c)(v)[4..] == c.enc(v.Value);
  }

  lemma EdgeReadBack<ET(!new)>(c: Codec<ET>, e: TEdge<ET>)
    requires Lawful(c)
    ensures |EdgeBytes(c)(e)| == 8 + c.size
    ensures ReadEdge(c, EdgeBytes(c)(e)) == e
  {
    ReadBackI32(e.StartId);
    ReadBackI32(e.EndId);
    assert EdgeBytes(c)(e)[..4] == I32Bytes(e.StartId);
    assert EdgeBytes(c)(e)[4..8] == I32Bytes(e.EndId);
    assert EdgeBytes(c)(e)[8..] == c.enc(e.Weight);
  }

  // ----- the stream

  function BytesOf<T>(enc: T -> seq<byte>, xs: seq<T>): seq<byte> {
    if xs == [] then [] else enc(xs[0]) + BytesOf(enc, xs[1..])
  }

  lemma {:induction false} BytesOfLength<T>(enc: T -> seq<byte>, size: nat, xs: seq<T>)
    requires forall x :: x in xs ==> |enc(x)| == size
    ensures |BytesOf(enc, xs)| == size * |xs|
  {
    if xs != [] {
      BytesOfLength(enc, size, xs[1..]);
      OneMore(size, |xs|);
    }
  }

  lemma OneMore(size: nat, n: int)
    ensures size * n == size + size * (n - 1)
  {
  }

  /** What a stream holds.  The source writes one key for each edge. */
  datatype Stream<VT, ET> = Stream(direct: bool, vertices: seq<TVertex<VT>>, keys: seq<uint64>, edges: seq<TEdge<ET>>)

  ghost predicate Countable<VT, ET>(s: Stream<VT, ET>) {
    |s.vertices| <= MAX_COUNT && |s.keys| == |s.edges| <= MAX_COUNT
  }

  function BoolBytes(b: bool): seq<byte> {
    [if b then 1 else 0]
  }

  function Encode<VT, ET>(cv: Codec<VT>, ce: Codec<ET>, s: Stream<VT, ET>): seq<byte>
    requires |s.vertices| <= MAX_COUNT && |s.keys| <= MAX_COUNT
  {
    BoolBytes(s.direct)
    + I32Bytes(|s.vertices|) + BytesOf(VertexBytes(cv), s.vertices)
    + I32Bytes(|s.keys|) + BytesOf(KeyBytes(), s.keys) + BytesOf(EdgeBytes(ce), s.edges)
  }

  /** The size computed at line 292. */
  function EncodedSize(valueSize: nat, weightSize: nat, vertices: nat, edges: nat): nat {
    1 + 4 + (4 + valueSize) * vertices + 4 + 8 * edges + (8 + weightSize) * edges
  }

  lemma EncodedLength<VT(!new), ET(!new)>(cv: Codec<VT>, ce: Codec<ET>, s: Stream<VT, ET>)
    requires Lawful(cv) && Lawful(ce) && Countable(s)
    ensures |Encode(cv, ce, s)| == EncodedSize(cv.size, ce.size, |s.vertices|, |s.edges|)
  {
    hide BytesOf, I32Bytes, Lawful, VertexBytes, EdgeBytes;
    BlocksOf(cv, ce, s);
  }

  // ----- the keys of the map, in the order of std::map

  predicate IsLeast(s: set<uint64>, k: uint64) {
    k in s && forall x :: x in s ==> k <= x
  }

  lemma {:induction false} LeastExists(s: set<uint64>)
    requires s != {}
    ensures exists k :: IsLeast(s, k)
  {
    var a :| a in s;
    if s != {a} {
      LeastExists(s - {a});
      var b :| IsLeast(s - {a}, b);
      assert forall x :: x in s ==> x == a || x in s - {a};
      assert IsLeast(s, if a <= b then a else b);
    } else {
      assert IsLeast(s, a);
    }
  }

  ghost function Least(s: set<uint64>): (k: uint64)
    requires s != {}
    ensures IsLeast(s, k)
  {
    LeastExists(s);
    var k :| IsLeast(s, k);
    k
  }

  lemma LeastUnique(s: set<uint64>, k: uint64)
    requires IsLeast(s, k)
    ensures k == Least(s)
  {
  }

  ghost function SortedKeys(s: set<uint64>): (keys: seq<uint64>)
    ensures |keys| == |s|
    ensures forall k :: k in keys <==> k in s
  {
    if s == {} then []
    else
      var k := Least(s);
      [k] + SortedKeys(s - {k})
  }

  ghost predicate Ascending(keys: seq<uint64>) {
    forall i, j :: 0 <= i < j < |keys| ==> keys[i] < keys[j]
  }

  lemma AscendingCons(k: uint64, keys: seq<uint64>)
    requires Ascending(keys) && forall x :: x in keys ==> k < x
    ensures Ascending([k] + keys)
  {
    assert forall i :: 0 <= i < |keys| ==> keys[i] in keys;
  }

  lemma SortedKeysStep(s: set<uint64>)
    requires s != {}
    ensures SortedKeys(s) == [Least(s)] + SortedKeys(s - {Least(s)})
    ensures forall x :: x in SortedKeys(s - {Least(s)}) ==> Least(s) < x
  {
  }

  lemma LeastComesNext(keys: seq<uint64>, rest: set<uint64>, k: uint64)
    requires IsLeast(rest, k)
    ensures keys + SortedKeys(rest) == (keys + [k]) + SortedKeys(rest - {k})
  {
    hide SortedKeys;
    LeastUnique(rest, k);
    SortedKeysStep(rest);
    assert keys + ([k] + SortedKeys(rest - {k})) == (keys + [k]) + SortedKeys(rest - {k});
  }

  lemma {:induction false} SortedKeysAscend(s: set<uint64>)
    ensures Ascending(SortedKeys(s))
  {
    if s != {} {
      hide Least, SortedKeys, Ascending;
      var rest := s - {Least(s)};
      SortedKeysAscend(rest);
      SortedKeysStep(s);
      AscendingCons(Least(s), SortedKeys(rest));
    }
  }

  ghost function EdgesInOrder<VT, ET>(g: Graph<VT, ET>): (es: seq<TEdge<ET>>)
    ensures |es| == |g.edges|
  {
    var keys := SortedKeys(g.edges.Keys);
    seq(|keys|, i requires 0 <= i < |keys| => g.edges[keys[i]])
  }

  /** What Seriallize writes. */
  ghost function StreamOf<VT, ET>(g: Graph<VT, ET>): Stream<VT, ET> {
    Stream(g.direct, g.vertices, SortedKeys(g.edges.Keys), EdgesInOrder(g))
  }

  // ----- where everything lies in the bytes

  /** The bytes that n records of one size take. */
  function BlockSize(size: nat, n: nat): nat {
    size * n
  }

  /** The i-th of the records of one size that stand in b from `start`; empty when b ends before. */
  function Record(b: seq<byte>, start: nat, size: nat, i: nat): seq<byte> {
    hide BlockSize;
    var at := start + BlockSize(size, i);
    if at + size <= |b| then b[at..at + size] else []
  }

  ghost predicate VertexLaidOut<VT>(c: Codec<VT>, v: TVertex<VT>, r: seq<byte>) {
    |r| == 4 + c.size && SignedWord32(r, 0) == v.Index && r[4..] == c.enc(v.Value)
  }

  ghost predicate EdgeLaidOut<ET>(c: Codec<ET>, e: TEdge<ET>, r: seq<byte>) {
    && |r| == 8 + c.size
    && SignedWord32(r, 0) == e.StartId && SignedWord32(r, 4) == e.EndId
    && r[8..] == c.enc(e.Weight)
  }

  ghost predicate VerticesLaidOut<VT>(c: Codec<VT>, vs: seq<TVertex<VT>>, b: seq<byte>, start: nat) {
    forall i :: 0 <= i < |vs| ==> VertexLaidOut(c, vs[i], Record(b, start, 4 + c.size, i))
  }

  ghost predicate KeysLaidOut(keys: seq<uint64>, b: seq<byte>, start: nat) {
    forall i :: 0 <= i < |keys| ==> var r := Record(b, start, 8, i); |r| == 8 && Word64(r, 0) == keys[i]
  }

  ghost predicate EdgesLaidOut<ET>(c: Codec<ET>, es: seq<TEdge<ET>>, b: seq<byte>, start: nat) {
    forall i :: 0 <= i < |es| ==> EdgeLaidOut(c, es[i], Record(b, start, 8 + c.size, i))
  }

  /** The layout the comment at line 276 describes: flag, vertex count, vertices, edge count, keys,
      edges. */
  ghost predicate StreamLaidOut<VT, ET>(cv: Codec<VT>, ce: Codec<ET>, s: Stream<VT, ET>, b: seq<byte>) {
    hide BlockSize;
    var n, m := |s.vertices|, |s.edges|;
    var keys := 9 + BlockSize(4 + cv.size, n);
    var edges := keys + BlockSize(8, m);
    && edges + BlockSize(8 + ce.size, m) <= |b|
    && b[0] == (if s.direct then 1 else 0)
    && SignedWord32(b, 1) == n
    && VerticesLaidOut(cv, s.vertices, b, 5)
    && SignedWord32(b, keys - 4) == m == |s.keys|
    && KeysLaidOut(s.keys, b, keys)
    && EdgesLaidOut(ce, s.edges, b, edges)
  }

  /** What the stream of a graph must hold: its flag and vertices, its keys, all of them and in
      ascending order, and for each key the edge that has it. */
  ghost predicate IsStreamOf<VT, ET>(g: Graph<VT, ET>, s: Stream<VT, ET>) {
    && s.direct == g.direct && s.vertices == g.vertices
    && Ascending(s.keys) && (forall k :: k in s.keys <==> k in g.edges)
    && |s.edges| == |s.keys|
    && forall i :: 0 <= i < |s.keys| ==> s.keys[i] in g.edges && s.edges[i] == g.edges[s.keys[i]]
  }

  lemma StreamOfIsStreamOf<VT, ET>(g: Graph<VT, ET>)
    ensures IsStreamOf(g, StreamOf(g))
  {
    SortedKeysAscend(g.edges.Keys);
    hide SortedKeys;
  }

  lemma {:induction false} RecordOf<T>(enc: T -> seq<byte>, size: nat, xs: seq<T>, i: nat)
    requires i < |xs| && forall x :: x in xs ==> |enc(x)| == size
    ensures BlockSize(size, i) + size <= |BytesOf(enc, xs)|
    ensures Record(BytesOf(enc, xs), 0, size, i) == enc(xs[i])
  {
    BlockGrows(size, i);
    hide BlockSize;
    if i > 0 {
      RecordOf(enc, size, xs[1..], i - 1);
      var more, at := BytesOf(enc, xs[1..]), BlockSize(size, i - 1);
      assert (enc(xs[0]) + more)[size + at..size + at + size] == more[at..at + size];
    }
  }

  lemma BlockGrows(size: nat, i: nat)
    ensures BlockSize(size, i) == if i == 0 then 0 else size + BlockSize(size, i - 1)
  {
    OneMore(size, i);
  }

  /** The same block of records somewhere in a buffer. */
  lemma RecordInBlock<T>(enc: T -> seq<byte>, size: nat, xs: seq<T>, i: nat, b: seq<byte>, start: nat)
    requires i < |xs| && forall x :: x in xs ==> |enc(x)| == size
    requires start <= |b| && BytesOf(enc, xs) <= b[start..]
    ensures Record(b, start, size, i) == enc(xs[i])
  {
    hide BlockSize, BytesOf;
    RecordOf(enc, size, xs, i);
    var block, at := BytesOf(enc, xs), BlockSize(size, i);
    SliceOfPrefix(block, at, size, b, start);
  }

  lemma SliceOfPrefix(block: seq<byte>, at: nat, size: nat, b: seq<byte>, start: nat)
    requires start <= |b| && block <= b[start..] && at + size <= |block|
    ensures start + at + size <= |b| && b[start + at..start + at + size] == block[at..at + size]
  {
    assert block == b[start..start + |block|];
  }

  lemma VertexIsLaidOut<VT(!new)>(c: Codec<VT>, v: TVertex<VT>)
    requires Lawful(c)
    ensures VertexLaidOut(c, v, VertexBytes(c)(v))
  {
    hide SignedWord32, I32Bytes;
    var r := VertexBytes(c)(v);
    assert |c.enc(v.Value)| == c.size;
    hide Lawful;
    assert r[0..4] == I32Bytes(v.Index);
    assert r[4..] == c.enc(v.Value);
    Int32IsLaidOut(v.Index, r, 0);
  }

  lemma EdgeIsLaidOut<ET(!new)>(c: Codec<ET>, e: TEdge<ET>)
    requires Lawful(c)
    ensures EdgeLaidOut(c, e, EdgeBytes(c)(e))
  {
    hide SignedWord32, I32Bytes;
    var r := EdgeBytes(c)(e);
    assert |c.enc(e.Weight)| == c.size;
    hide Lawful;
    assert r[0..4] == I32Bytes(e.StartId);
    assert r[4..8] == I32Bytes(e.EndId);
    assert r[8..] == c.enc(e.Weight);
    Int32IsLaidOut(e.StartId, r, 0);
    Int32IsLaidOut(e.EndId, r, 4);
  }

  lemma KeyIsLaidOut(k: uint64)
    ensures Word64(KeyBytes()(k), 0) == k
  {
    ReadBack64(k);
    U64IsWord(LeBytes(k, 8));
  }

  lemma Int32IsLaidOut(n: int32, b: seq<byte>, at: nat)
    requires at + 4 <= |b| && b[at..at + 4] == I32Bytes(n)
    ensures SignedWord32(b, at) == n
  {
    hide I32Bytes, ReadI32, SignedWord32;
    ReadBackI32(n);
    I32IsWord(b[at..at + 4]);
    WordsOfSlice(b, at, 4, 0);
  }

  /** Where the six parts of an encoded stream begin. */
  ghost predicate PartsInPlace<VT, ET>(cv: Codec<VT>, ce: Codec<ET>, s: Stream<VT, ET>, b: seq<byte>,
                                       keys: nat, edges: nat)
    requires Countable(s)
  {
    && 9 <= keys <= edges <= |b|
    && b[0] == (if s.direct then 1 else 0)
    && b[1..5] == I32Bytes(|s.vertices|)
    && BytesOf(VertexBytes(cv), s.vertices) <= b[5..]
    && b[keys - 4..keys] == I32Bytes(|s.keys|)
    && BytesOf(KeyBytes(), s.keys) <= b[keys..]
    && BytesOf(EdgeBytes(ce), s.edges) <= b[edges..]
  }

  lemma EncodedParts<VT(!new), ET(!new)>(cv: Codec<VT>, ce: Codec<ET>, s: Stream<VT, ET>, b: seq<byte>)
    requires Lawful(cv) && Lawful(ce) && Countable(s) && Encode(cv, ce, s) <= b
    ensures var keys := 9 + BlockSize(4 + cv.size, |s.vertices|);
            var edges := keys + BlockSize(8, |s.edges|);
            edges + BlockSize(8 + ce.size, |s.edges|) <= |b| && PartsInPlace(cv, ce, s, b, keys, edges)
  {
    hide BlockSize, BytesOf, I32Bytes, Lawful, VertexBytes, KeyBytes, EdgeBytes;
    var vs, ks := BytesOf(VertexBytes(cv), s.vertices), BytesOf(KeyBytes(), s.keys);
    var es := BytesOf(EdgeBytes(ce), s.edges);
    BlocksOf(cv, ce, s);
    assert Encode(cv, ce, s)
           == BoolBytes(s.direct) + I32Bytes(|s.vertices|) + vs + I32Bytes(|s.keys|) + ks + es;
    SixParts(BoolBytes(s.direct), I32Bytes(|s.vertices|), vs, I32Bytes(|s.keys|), ks, es, b);
  }

  lemma BlocksOf<VT(!new), ET(!new)>(cv: Codec<VT>, ce: Codec<ET>, s: Stream<VT, ET>)
    requires Lawful(cv) && Lawful(ce)
    ensures |BytesOf(VertexBytes(cv), s.vertices)| == BlockSize(4 + cv.size, |s.vertices|)
    ensures |BytesOf(KeyBytes(), s.keys)| == BlockSize(8, |s.keys|)
    ensures |BytesOf(EdgeBytes(ce), s.edges)| == BlockSize(8 + ce.size, |s.edges|)
  {
    hide BytesOf, Lawful, VertexBytes, EdgeBytes;
    RecordLengths(cv, ce);
    BytesOfLength(VertexBytes(cv), 4 + cv.size, s.vertices);
    BytesOfLength(KeyBytes(), 8, s.keys);
    BytesOfLength(EdgeBytes(ce), 8 + ce.size, s.edges);
  }

  lemma SixParts(p: seq<byte>, q: seq<byte>, r: seq<byte>, s: seq<byte>, t: seq<byte>, u: seq<byte>, b: seq<byte>)
    requires |p| == 1 && |q| == 4 && |s| == 4 && p + q + r + s + t + u <= b
    ensures 9 + |r| + |t| + |u| <= |b|
    ensures b[0] == p[0] && b[1..5] == q && r <= b[5..] && b[5 + |r|..9 + |r|] == s && t <= b[9 + |r|..]
    ensures u <= b[9 + |r| + |t|..]
  {
    var all := p + q + r + s + t + u;
    assert b[1..5] == all[1..5];
    assert b[5..][..|r|] == all[5..5 + |r|];
    assert b[5 + |r|..9 + |r|] == all[5 + |r|..9 + |r|];
    assert b[9 + |r|..][..|t|] == all[9 + |r|..9 + |r| + |t|];
    assert b[9 + |r| + |t|..][..|u|] == all[9 + |r| + |t|..];
  }

  lemma RecordLengths<VT(!new), ET(!new)>(cv: Codec<VT>, ce: Codec<ET>)
    requires Lawful(cv) && Lawful(ce)
    ensures forall v :: |VertexBytes(cv)(v)| == 4 + cv.size
    ensures forall e :: |EdgeBytes(ce)(e)| == 8 + ce.size
  {
    forall v
      ensures |VertexBytes(cv)(v)| == 4 + cv.size
    {
      VertexReadBack(cv, v);
    }
    forall e
      ensures |EdgeBytes(ce)(e)| == 8 + ce.size
    {
      EdgeReadBack(ce, e);
    }
  }

  lemma VerticesAreLaidOut<VT(!new)>(c: Codec<VT>, vs: seq<TVertex<VT>>, b: seq<byte>, start: nat)
    requires Lawful(c) && start <= |b| && BytesOf(VertexBytes(c), vs) <= b[start..]
    ensures VerticesLaidOut(c, vs, b, start)
  {
    hide BytesOf, Record, VertexBytes, VertexLaidOut, Lawful;
    forall v
      ensures |VertexBytes(c)(v)| == 4 + c.size
    {
      VertexReadBack(c, v);
    }
    forall i | 0 <= i < |vs|
      ensures VertexLaidOut(c, vs[i], Record(b, start, 4 + c.size, i))
    {
      RecordInBlock(VertexBytes(c), 4 + c.size, vs, i, b, start);
      VertexIsLaidOut(c, vs[i]);
    }
  }

  lemma KeysAreLaidOut(keys: seq<uint64>, b: seq<byte>, start: nat)
    requires start <= |b| && BytesOf(KeyBytes(), keys) <= b[start..]
    ensures KeysLaidOut(keys, b, start)
  {
    hide BytesOf, Record, Word64;
    forall i | 0 <= i < |keys|
      ensures |Record(b, start, 8, i)| == 8 && Word64(Record(b, start, 8, i), 0) == keys[i]
    {
      RecordInBlock(KeyBytes(), 8, keys, i, b, start);
      KeyIsLaidOut(keys[i]);
    }
  }

  lemma EdgesAreLaidOut<ET(!new)>(c: Codec<ET>, es: seq<TEdge<ET>>, b: seq<byte>, start: nat)
    requires Lawful(c) && start <= |b| && BytesOf(EdgeBytes(c), es) <= b[start..]
    ensures EdgesLaidOut(c, es, b, start)
  {
    hide BytesOf, Record, EdgeBytes, EdgeLaidOut, Lawful;
    forall e
      ensures |EdgeBytes(c)(e)| == 8 + c.size
    {
      EdgeReadBack(c, e);
    }
    forall i | 0 <= i < |es|
      ensures EdgeLaidOut(c, es[i], Record(b, start, 8 + c.size, i))
    {
      RecordInBlock(EdgeBytes(c), 8 + c.size, es, i, b, start);
      EdgeIsLaidOut(c, es[i]);
    }
  }

  /** Every stream is written in that layout, whatever follows it. */
  lemma EncodedIsLaidOut<VT(!new), ET(!new)>(cv: Codec<VT>, ce: Codec<ET>, s: Stream<VT, ET>, b: seq<byte>)
    requires Lawful(cv) && Lawful(ce) && Countable(s) && Encode(cv, ce, s) <= b
    ensures StreamLaidOut(cv, ce, s, b)
  {
    hide BlockSize, Encode, BytesOf, Lawful, SignedWord32, I32Bytes, VerticesLaidOut, KeysLaidOut, EdgesLaidOut;
    EncodedParts(cv, ce, s, b);
    var keys := 9 + BlockSize(4 + cv.size, |s.vertices|);
    var edges := keys + BlockSize(8, |s.edges|);
    Int32IsLaidOut(|s.vertices|, b, 1);
    Int32IsLaidOut(|s.edges|, b, keys - 4);
    VerticesAreLaidOut(cv, s.vertices, b, 5);
    KeysAreLaidOut(s.keys, b, keys);
    EdgesAreLaidOut(ce, s.edges, b, edges);
  }

  // ----- what Deseriallize makes of a stream

  /** The container reset before the vertices are read.  With the wrapper array (line 386) it
      ends up empty; with std::vector (line 388, the branch that is built) it is filled with
      value-initialised vertices, behind which the loop then appends. */
  datatype ResetKind<VT> = EmptyFirst | ResizeFirst(blank: VT)

  function Blanks<VT>(n: nat, blank: VT): seq<TVertex<VT>> {
    seq(n, _ => TVertex(0, blank))
  }

  function Prepared<VT, ET>(was: Graph<VT, ET>, s: Stream<VT, ET>, reset: ResetKind<VT>): Graph<VT, ET> {
    Cleared(was).(direct := s.direct, vertices := if reset.EmptyFirst? then [] else Blanks(|s.vertices|, reset.blank))
  }

  function WithVertices<VT, ET>(g: Graph<VT, ET>, vs: seq<TVertex<VT>>): (g': Graph<VT, ET>)
    requires |g.vertices| + |vs| <= MAX_COUNT
    ensures |g'.vertices| == |g.vertices| + |vs|
    ensures g'.backward == g.backward && g'.direct == g.direct && g'.edges == g.edges
    ensures |g'.parents| == |g.parents| + (if g.backward then |vs| else 0)
  {
    if vs == [] then g else WithVertex(WithVertices(g, vs[..|vs| - 1]), vs[|vs| - 1].Value)
  }

  /** Every edge whose end is a vertex has a place in the parent index. */
  predicate AllIndexable<VT, ET>(g: Graph<VT, ET>, es: seq<TEdge<ET>>) {
    g.backward ==> forall i :: 0 <= i < |es| && IsVertexOf(g, es[i].EndId) ==> es[i].EndId < |g.parents|
  }

  function WithEdges<VT, ET>(g: Graph<VT, ET>, es: seq<TEdge<ET>>): (g': Graph<VT, ET>)
    requires AllIndexable(g, es)
    ensures g'.backward == g.backward && g'.direct == g.direct && g'.vertices == g.vertices
    ensures |g'.parents| == |g.parents|
  {
    if es == [] then g
    else
      WithEdge(WithEdges(g, es[..|es| - 1]), es[|es| - 1])
  }

  /** The keys in the stream play no part: every edge is added again under its own key. */
  ghost function Rebuilt<VT, ET>(was: Graph<VT, ET>, s: Stream<VT, ET>, reset: ResetKind<VT>): Graph<VT, ET>
    requires Rebuildable(was, s, reset)
  {
    WithEdges(WithVertices(Prepared(was, s, reset), s.vertices), s.edges)
  }

  ghost predicate Rebuildable<VT, ET>(was: Graph<VT, ET>, s: Stream<VT, ET>, reset: ResetKind<VT>) {
    && (if reset.EmptyFirst? then 1 else 2) * |s.vertices| <= MAX_COUNT
    && AllIndexable(WithVertices(Prepared(was, s, reset), s.vertices), s.edges)
  }

  // ----- the round trip

  lemma {:induction false} VerticesAppended<VT, ET>(g: Graph<VT, ET>, vs: seq<TVertex<VT>>)
    requires |g.vertices| + |vs| <= MAX_COUNT
    ensures var g' := WithVertices(g, vs);
            && g'.vertices[..|g.vertices|] == g.vertices
            && (forall i :: 0 <= i < |vs| ==> g'.vertices[|g.vertices| + i] == TVertex(|g.vertices| + i, vs[i].Value))
            && (forall i :: |g.parents| <= i < |g'.parents| ==> g'.parents[i] == EMPTY_LIST)
  {
    if vs != [] {
      VerticesAppended(g, vs[..|vs| - 1]);
    }
  }

  ghost predicate IsRestriction<K(!new), V>(part: map<K, V>, whole: map<K, V>, keys: seq<K>) {
    && (forall k :: k in part <==> k in keys)
    && (forall k :: k in part ==> k in whole && part[k] == whole[k])
  }

  /** Adding the edges of g in order, to any graph with room for them, gives back its map. */
  lemma {:induction false} EdgesRestored<VT, ET>(g: Graph<VT, ET>, h: Graph<VT, ET>, n: nat)
    requires EdgesInPlace(g)
    requires h.edges == map[] && h.direct == g.direct && |h.vertices| >= |g.vertices|
    requires n <= |g.edges|
    requires AllIndexable(h, EdgesInOrder(g)[..n])
    ensures IsRestriction(WithEdges(h, EdgesInOrder(g)[..n]).edges, g.edges, SortedKeys(g.edges.Keys)[..n])
  {
    hide KeyOf, SortedKeys, EdgesInOrder, EdgesInPlace, WithEdge, Accepts;
    if n > 0 {
      hide IsRestriction;
      var keys, es := SortedKeys(g.edges.Keys), EdgesInOrder(g);
      NextInOrder(g, n - 1);
      EdgesRestored(g, h, n - 1);
      EdgesStayIndexable(h, es[..n], n - 1);
      EdgeRestored(g, WithEdges(h, es[..n - 1]), keys[..n - 1], keys[n - 1]);
    }
  }

  lemma NextInOrder<VT, ET>(g: Graph<VT, ET>, n: nat)
    requires n < |g.edges|
    ensures var keys, es := SortedKeys(g.edges.Keys), EdgesInOrder(g);
            && keys[n] in g.edges && keys[n] !in keys[..n]
            && keys[..n + 1] == keys[..n] + [keys[n]]
            && es[n] == g.edges[keys[n]] && es[..n + 1][..n] == es[..n]
  {
    SortedKeysAscend(g.edges.Keys);
    hide SortedKeys;
  }

  lemma EdgesExtend<VT, ET>(h: Graph<VT, ET>, es: seq<TEdge<ET>>, n: nat)
    requires n < |es| && AllIndexable(h, es)
    ensures AllIndexable(h, es[..n]) && AllIndexable(h, es[..n + 1]) && Indexable(WithEdges(h, es[..n]), es[n])
    ensures WithEdges(h, es[..n + 1]) == WithEdge(WithEdges(h, es[..n]), es[n])
  {
    hide KeyOf;
    EdgesStayIndexable(h, es, n);
    assert es[..n + 1][..n] == es[..n];
  }

  lemma VerticesExtend<VT, ET>(h: Graph<VT, ET>, vs: seq<TVertex<VT>>, n: nat)
    requires n < |vs| && |h.vertices| + |vs| <= MAX_COUNT
    ensures WithVertices(h, vs[..n + 1]) == WithVertex(WithVertices(h, vs[..n]), vs[n].Value)
  {
    assert vs[..n + 1][..n] == vs[..n];
  }

  lemma EdgesStayIndexable<VT, ET>(h: Graph<VT, ET>, es: seq<TEdge<ET>>, n: nat)
    requires n < |es| && AllIndexable(h, es)
    ensures AllIndexable(h, es[..n]) && Indexable(WithEdges(h, es[..n]), es[n])
  {
    hide KeyOf;
  }

  lemma EdgeRestored<VT, ET>(g: Graph<VT, ET>, h: Graph<VT, ET>, keys: seq<uint64>, k: uint64)
    requires EdgesInPlace(g)
    requires h.direct == g.direct && |h.vertices| >= |g.vertices|
    requires IsRestriction(h.edges, g.edges, keys)
    requires k in g.edges && k !in keys
    requires Indexable(h, g.edges[k])
    ensures IsRestriction(WithEdge(h, g.edges[k]).edges, g.edges, keys + [k])
  {
    hide KeyOf;
  }

  lemma AllEdgesRestored<VT, ET>(g: Graph<VT, ET>, h: Graph<VT, ET>)
    requires EdgesInPlace(g)
    requires h.edges == map[] && h.direct == g.direct && |h.vertices| >= |g.vertices|
    requires AllIndexable(h, EdgesInOrder(g))
    ensures WithEdges(h, EdgesInOrder(g)).edges == g.edges
  {
    hide KeyOf, SortedKeys, WithEdges, EdgesInPlace;
    var es, keys := EdgesInOrder(g), SortedKeys(g.edges.Keys);
    assert es[..|g.edges|] == es;
    assert keys[..|g.edges|] == keys;
    EdgesRestored(g, h, |g.edges|);
  }

  /** Adding edges keeps a graph consistent, whatever the edges are. */
  lemma {:induction false} EdgesKeepConsistent<VT, ET>(g: Graph<VT, ET>, es: seq<TEdge<ET>>)
    requires Consistent(g)
    ensures AllIndexable(g, es) && Consistent(WithEdges(g, es))
  {
    hide KeyOf, HasEdge, EdgesInPlace, VerticesNumbered;
    if es != [] {
      EdgesKeepConsistent(g, es[..|es| - 1]);
      EdgeKeepsConsistent(WithEdges(g, es[..|es| - 1]), es[|es| - 1]);
    }
  }

  lemma {:induction false} VerticesKeepConsistent<VT, ET>(g: Graph<VT, ET>, vs: seq<TVertex<VT>>)
    requires Consistent(g) && |g.vertices| + |vs| <= MAX_COUNT
    ensures Consistent(WithVertices(g, vs))
  {
    hide Consistent;
    if vs != [] {
      VerticesKeepConsistent(g, vs[..|vs| - 1]);
      VertexKeepsConsistent(WithVertices(g, vs[..|vs| - 1]), vs[|vs| - 1].Value);
    }
  }

  /** When the array is emptied first, any stream at all gives a consistent graph. */
  lemma RebuiltIsConsistent<VT, ET>(was: Graph<VT, ET>, s: Stream<VT, ET>)
    requires |s.vertices| <= MAX_COUNT
    ensures Rebuildable(was, s, EmptyFirst) && Consistent(Rebuilt(was, s, EmptyFirst))
  {
    hide Consistent, WithVertices, WithEdges;
    assert Consistent(Prepared(was, s, EmptyFirst)) by {
      ConsistentStart<VT, ET>(was.backward, s.direct);
      assert Prepared(was, s, EmptyFirst) == NewGraph(was.backward, s.direct);
    }
    VerticesKeepConsistent(Prepared(was, s, EmptyFirst), s.vertices);
    EdgesKeepConsistent(WithVertices(Prepared(was, s, EmptyFirst), s.vertices), s.edges);
  }

  /** Two consistent graphs with the same vertices and edges have the same parent index. */
  lemma ParentsDetermined<VT, ET>(g: Graph<VT, ET>, h: Graph<VT, ET>)
    requires Consistent(g) && Consistent(h)
    requires g.backward == h.backward && g.vertices == h.vertices && g.edges == h.edges
    ensures g.parents == h.parents
  {
    hide KeyOf, EdgesInPlace;
    forall u, v
      ensures HasEdge(g, u, v) <==> HasEdge(h, u, v)
    {
    }
    if g.backward {
      forall v | 0 <= v < |g.parents|
        ensures g.parents[v] == h.parents[v]
      {
        assert forall u: int32 :: u in g.parents[v].AdjustVertexes <==> u in h.parents[v].AdjustVertexes;
        assert g.parents[v].AdjustVertexes == h.parents[v].AdjustVertexes;
      }
    }
  }

  /** Round trip: with the array emptied first, reading what was written gives back the graph:
      flag, vertices, edges, weights and parent index. */
  lemma RoundTrip<VT, ET>(was: Graph<VT, ET>, g: Graph<VT, ET>)
    requires Consistent(g) && was.backward == g.backward
    ensures Rebuildable(was, StreamOf(g), EmptyFirst)
    ensures Rebuilt(was, StreamOf(g), EmptyFirst) == g
  {
    hide KeyOf, HasEdge, SortedKeys, EdgesInOrder, WithEdges, WithVertices, ParentsAgree, AllIndexable;
    var s := StreamOf(g);
    var h := WithVertices(Prepared(was, s, EmptyFirst), s.vertices);
    RebuiltIsConsistent(was, s);
    VerticesAppended(Prepared(was, s, EmptyFirst), s.vertices);
    assert h.vertices == g.vertices;
    AllEdgesRestored(g, h);
    ParentsDetermined(g, Rebuilt(was, s, EmptyFirst));
  }

  /** With the resize that is built, the same stream gives twice the vertices: first blanks,
      then the originals under new indexes; the edges come back and still name the old ones. */
  lemma ResizedRoundTrip<VT, ET>(was: Graph<VT, ET>, g: Graph<VT, ET>, blank: VT)
    requires Consistent(g) && was.backward == g.backward
    requires 2 * |g.vertices| <= MAX_COUNT
    ensures Rebuildable(was, StreamOf(g), ResizeFirst(blank))
    ensures var r, n := Rebuilt(was, StreamOf(g), ResizeFirst(blank)), |g.vertices|;
            && r.direct == g.direct && r.edges == g.edges
            && |r.vertices| == 2 * n
            && (forall i :: 0 <= i < n ==> r.vertices[i] == TVertex(0, blank))
            && (forall i :: 0 <= i < n ==> r.vertices[n + i] == TVertex(n + i, g.vertices[i].Value))
            && r.parents == g.parents
  {
    hide KeyOf, HasEdge, SortedKeys, EdgesInOrder, WithEdges, WithVertices, EdgesInPlace, ParentsAgree;
    var s, reset := StreamOf(g), ResizeFirst(blank);
    var h := WithVertices(Prepared(was, s, reset), s.vertices);
    var h' := WithVertices(Prepared(was, s, EmptyFirst), s.vertices);
    ResizedVertices(was, g, blank);
    RoundTrip(was, g);
    EdgeEndsInRange(g);
    VerticesAddSameParents(Prepared(was, s, EmptyFirst), Prepared(was, s, reset), s.vertices);
    EdgesAddSameParents(h', h, s.edges);
  }

  lemma EdgeEndsInRange<VT, ET>(g: Graph<VT, ET>)
    requires EdgesInPlace(g)
    ensures forall i :: 0 <= i < |EdgesInOrder(g)| ==>
              IsVertexOf(g, EdgesInOrder(g)[i].StartId) && IsVertexOf(g, EdgesInOrder(g)[i].EndId)
  {
    hide KeyOf, SortedKeys;
    forall i | 0 <= i < |EdgesInOrder(g)|
      ensures IsVertexOf(g, EdgesInOrder(g)[i].StartId) && IsVertexOf(g, EdgesInOrder(g)[i].EndId)
    {
      assert SortedKeys(g.edges.Keys)[i] in g.edges;
    }
  }

  /** The parent index grows with the vertices added, whatever vertices there were before. */
  lemma {:induction false} VerticesAddSameParents<VT, ET>(g: Graph<VT, ET>, h: Graph<VT, ET>, vs: seq<TVertex<VT>>)
    requires |g.vertices| + |vs| <= MAX_COUNT && |h.vertices| + |vs| <= MAX_COUNT
    requires g.backward == h.backward && g.parents == h.parents
    ensures WithVertices(g, vs).parents == WithVertices(h, vs).parents
  {
    if vs != [] {
      VerticesAddSameParents(g, h, vs[..|vs| - 1]);
    }
  }

  /** More vertices change nothing for edges that only name the old ones. */
  lemma {:induction false} EdgesAddSameParents<VT, ET>(g: Graph<VT, ET>, h: Graph<VT, ET>, es: seq<TEdge<ET>>)
    requires h == g.(vertices := h.vertices) && |g.vertices| <= |h.vertices|
    requires forall i :: 0 <= i < |es| ==> IsVertexOf(g, es[i].StartId) && IsVertexOf(g, es[i].EndId)
    requires AllIndexable(g, es)
    ensures AllIndexable(h, es)
    ensures WithEdges(h, es) == WithEdges(g, es).(vertices := h.vertices)
  {
    hide KeyOf;
    if es != [] {
      EdgesAddSameParents(g, h, es[..|es| - 1]);
    }
  }

  lemma ResizedVertices<VT, ET>(was: Graph<VT, ET>, g: Graph<VT, ET>, blank: VT)
    requires 2 * |g.vertices| <= MAX_COUNT
    ensures var n := |g.vertices|;
            var vertices := WithVertices(Prepared(was, StreamOf(g), ResizeFirst(blank)), g.vertices).vertices;
            && |vertices| == 2 * n
            && (forall i :: 0 <= i < n ==> vertices[i] == TVertex(0, blank))
            && (forall i :: 0 <= i < n ==> vertices[n + i] == TVertex(n + i, g.vertices[i].Value))
  {
    hide SortedKeys, EdgesInOrder, WithVertices;
    var start := Prepared(was, StreamOf(g), ResizeFirst(blank));
    var h := WithVertices(start, g.vertices);
    VerticesAppended(start, g.vertices);
    assert h.vertices[..|g.vertices|] == Blanks(|g.vertices|, blank);
    assert forall i :: 0 <= i < |g.vertices| ==> h.vertices[i] == h.vertices[..|g.vertices|][i];
  }

  /** So the built branch restores a graph exactly when it has no vertices, and for a backward
      graph the parent index is otherwise too short for the vertices there now are. */
  lemma ResizedRoundTripExact<VT, ET>(was: Graph<VT, ET>, g: Graph<VT, ET>, blank: VT)
    requires Consistent(g) && was.backward == g.backward
    requires 2 * |g.vertices| <= MAX_COUNT
    ensures Rebuildable(was, StreamOf(g), ResizeFirst(blank))
    ensures Rebuilt(was, StreamOf(g), ResizeFirst(blank)) == g <==> g.vertices == []
    ensures g.backward ==> (ParentsAgree(Rebuilt(was, StreamOf(g), ResizeFirst(blank))) <==> g.vertices == [])
  {
    hide KeyOf, HasEdge, SortedKeys, StreamOf, EdgesInPlace, Rebuilt, Rebuildable;
    ResizedRoundTrip(was, g, blank);
    var r := Rebuilt(was, StreamOf(g), ResizeFirst(blank));
    assert |r.vertices| == 2 * |g.vertices|;
    if g.vertices == [] {
      EmptyResizeIsEmptying(was, g, blank);
      RoundTrip(was, g);
    }
  }

  /** What that leads to: in every backward graph with a vertex there is then an edge that
      AddEdge accepts and for which it looks beyond the end of the parent index. */
  lemma ResizedIndexIsOverrun<VT, ET>(was: Graph<VT, ET>, g: Graph<VT, ET>, blank: VT, weight: ET)
    requires Consistent(g) && g.backward && was.backward
    requires 0 < |g.vertices| && 2 * |g.vertices| <= MAX_COUNT
    ensures Rebuildable(was, StreamOf(g), ResizeFirst(blank))
    ensures var r := Rebuilt(was, StreamOf(g), ResizeFirst(blank));
            var e := TEdge(0, |g.vertices|, weight);
            r.backward && Accepts(r, e) && e.EndId >= |r.parents| && !Indexable(r, e)
  {
    hide KeyOf, HasEdge, SortedKeys, StreamOf, Rebuilt, Rebuildable;
    ResizedRoundTrip(was, g, blank);
    NoEdgeBeyond(g, 0, |g.vertices|);
    RebuiltKeepsKind(was, StreamOf(g), ResizeFirst(blank));
  }

  lemma NoEdgeBeyond<VT, ET>(g: Graph<VT, ET>, s: int32, e: int32)
    requires EdgesInPlace(g) && !IsVertexOf(g, e)
    ensures KeyOf(s, e) !in g.edges
  {
    hide KeyOf;
    LookupFindsTheEdge(g, s, e);
  }

  lemma RebuiltKeepsKind<VT, ET>(was: Graph<VT, ET>, s: Stream<VT, ET>, reset: ResetKind<VT>)
    requires Rebuildable(was, s, reset)
    ensures Rebuilt(was, s, reset).backward == was.backward
  {
  }

  lemma EmptyResizeIsEmptying<VT, ET>(was: Graph<VT, ET>, g: Graph<VT, ET>, blank: VT)
    requires g.vertices == []
    ensures Rebuildable(was, StreamOf(g), ResizeFirst(blank)) <==> Rebuildable(was, StreamOf(g), EmptyFirst)
    ensures Rebuildable(was, StreamOf(g), EmptyFirst) ==>
              Rebuilt(was, StreamOf(g), ResizeFirst(blank)) == Rebuilt(was, StreamOf(g), EmptyFirst)
  {
    hide SortedKeys, EdgesInOrder, WithEdges, WithVertices;
    assert Blanks(0, blank) == [];
  }
}
