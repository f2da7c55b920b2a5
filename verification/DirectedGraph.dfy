/** Core/Templates/DirectedGraph and BackwardGraph: the graph object and its serializer.

One class stands for both templates: `backward` is the dynamic type of the object, on which the
virtual members AddVertex, AddEdge and Reset dispatch, also when Deseriallize calls them. */
module DirectedGraph {
  import opened Bytes
  import opened GraphKeys
  import opened GraphModel
  import opened GraphStream

  /** The buffer as it was, its beginning overwritten. */
  ghost predicate Written(dst: array<byte>, was: seq<byte>, bytes: seq<byte>)
    reads dst
  {
    |bytes| <= |was| && dst[..] == bytes + was[|bytes|..]
  }

  /** One `memcpy(OutBuffer + _index, ...)` with the step of `_index` behind it. */
  method Append(dst: array<byte>, index: nat, src: seq<byte>, ghost was: seq<byte>, ghost written: seq<byte>)
    returns (next: nat, ghost all: seq<byte>)
    requires Written(dst, was, written) && |written| == index
    requires index + |src| <= dst.Length
    modifies dst
    ensures next == |all| && all == written + src
    ensures Written(dst, was, all)
  {
    forall i | 0 <= i < |src| {
      dst[index + i] := src[i];
    }
    next := index + |src|;
    all := written + src;
  }

  /** A copying loop of Seriallize: one record behind the other. */
  method AppendEach<T>(dst: array<byte>, index: nat, enc: T -> seq<byte>, xs: seq<T>,
                       ghost was: seq<byte>, ghost written: seq<byte>)
    returns (next: nat, ghost all: seq<byte>)
    requires Written(dst, was, written) && |written| == index
    requires index + |BytesOf(enc, xs)| <= dst.Length
    modifies dst
    ensures next == |all| && all == written + BytesOf(enc, xs)
    ensures Written(dst, was, all)
  {
    next, all := index, written;
    var i := 0;
    while i < |xs|
      invariant 0 <= i <= |xs|
      invariant Written(dst, was, all) && |all| == next
      invariant all + BytesOf(enc, xs[i..]) == written + BytesOf(enc, xs)
    {
      hide Written;
      assert xs[i..][1..] == xs[i + 1..];
      ghost var before := all;
      next, all := Append(dst, next, enc(xs[i]), was, all);
      assert all + BytesOf(enc, xs[i + 1..]) == before + BytesOf(enc, xs[i..]);
      i := i + 1;
    }
    assert all == written + BytesOf(enc, xs);
  }

  /** The record at `index` in a buffer that continues with records i, i + 1, ..., and what
      lies behind it. */
  lemma FrontRecord<T>(enc: T -> seq<byte>, size: nat, xs: seq<T>, i: nat, rest: seq<byte>, b: seq<byte>, index: nat)
    requires i < |xs| && |enc(xs[i])| == size && index <= |b|
    requires BytesOf(enc, xs[i..]) + rest <= b[index..]
    ensures index + size <= |b| && b[index..index + size] == enc(xs[i])
    ensures BytesOf(enc, xs[i + 1..]) + rest <= b[index + size..]
  {
    var record, more := enc(xs[i]), BytesOf(enc, xs[i + 1..]);
    assert xs[i..][1..] == xs[i + 1..];
    assert BytesOf(enc, xs[i..]) + rest == record + (more + rest);
    PrefixSplits(record, more + rest, b[index..]);
    assert b[index..][..size] == b[index..index + size];
    assert b[index..][size..] == b[index + size..];
  }

  lemma PrefixSplits(front: seq<byte>, back: seq<byte>, b: seq<byte>)
    requires front + back <= b
    ensures |front| <= |b| && b[..|front|] == front && back <= b[|front|..]
  {
    assert b[..|front|] == (front + back)[..|front|];
    assert b[|front|..][..|back|] == (front + back)[|front|..];
  }

  lemma NoRecordsLeft<T>(enc: T -> seq<byte>, xs: seq<T>, rest: seq<byte>, b: seq<byte>)
    requires BytesOf(enc, xs[|xs|..]) + rest <= b
    ensures rest <= b
  {
    assert BytesOf(enc, xs[|xs|..]) + rest == rest;
  }

  /** The second half of a stream: the count of the edges, their keys, and the edges. */
  function EdgePart<VT, ET>(ce: Codec<ET>, s: Stream<VT, ET>): seq<byte>
    requires |s.keys| <= MAX_COUNT
  {
    I32Bytes(|s.keys|) + (BytesOf(KeyBytes(), s.keys) + BytesOf(EdgeBytes(ce), s.edges))
  }

  lemma EncodeSplits<VT, ET>(cv: Codec<VT>, ce: Codec<ET>, s: Stream<VT, ET>, b: seq<byte>)
    requires Countable(s) && Encode(cv, ce, s) <= b
    ensures |b| >= 5 && (b[0] != 0 <==> s.direct) && ReadI32(b[1..5]) == |s.vertices|
    ensures BytesOf(VertexBytes(cv), s.vertices) + EdgePart(ce, s) <= b[5..]
  {
    hide BytesOf, I32Bytes;
    var head := BoolBytes(s.direct) + I32Bytes(|s.vertices|);
    var tail := BytesOf(VertexBytes(cv), s.vertices) + EdgePart(ce, s);
    assert Encode(cv, ce, s) == head + tail;
    PrefixSplits(head, tail, b);
    assert b[1..5] == head[1..5] == I32Bytes(|s.vertices|);
    ReadBackI32(|s.vertices|);
    assert b[0] == head[0];
  }

  lemma EdgePartSplits<VT, ET>(ce: Codec<ET>, s: Stream<VT, ET>, b: seq<byte>)
    requires Countable(s) && EdgePart(ce, s) <= b
    ensures |b| >= 4 && ReadI32(b[..4]) == |s.keys|
    ensures BytesOf(KeyBytes(), s.keys) + BytesOf(EdgeBytes(ce), s.edges) <= b[4..]
  {
    hide BytesOf, I32Bytes;
    PrefixSplits(I32Bytes(|s.keys|), BytesOf(KeyBytes(), s.keys) + BytesOf(EdgeBytes(ce), s.edges), b);
    ReadBackI32(|s.keys|);
  }

  class TDirectedGraph<VT(!new), ET(!new)> {
    const backward: bool
    const cv: Codec<VT>
    const ce: Codec<ET>
    var bDirectSelf: bool
    var VertexArray: seq<TVertex<VT>>
    var EdgeMap: map<uint64, TEdge<ET>>
    var ParentEdges: seq<EdgeAdjustList>

    ghost function View(): Graph<VT, ET>
      reads this
    {
      Graph(backward, bDirectSelf, VertexArray, EdgeMap, ParentEdges)
    }

    constructor (backward: bool, cv: Codec<VT>, ce: Codec<ET>)
      ensures View() == NewGraph(backward, false) && Consistent(View())
      ensures this.cv == cv && this.ce == ce
    {
      this.backward := backward;
      this.cv := cv;
      this.ce := ce;
      bDirectSelf := false;
      VertexArray := [];
      EdgeMap := map[];
      ParentEdges := [];
    }

    method AddVertex(v: VT)
      requires |VertexArray| < MAX_COUNT
      modifies this
      ensures View() == WithVertex(old(View()), v)
      ensures VertexArray == old(VertexArray) + [TVertex(|old(VertexArray)|, v)] && EdgeMap == old(EdgeMap)
      ensures old(Consistent(View())) ==> Consistent(View())
    {
      ghost var was := View();
      if Consistent(was) {
        VertexKeepsConsistent(was, v);
      }
      VertexArray := VertexArray + [TVertex(|VertexArray|, v)];
      if backward {
        ParentEdges := ParentEdges + [EMPTY_LIST];
      }
      assert View() == WithVertex(was, v);
    }

    method AddEdge(edge: TEdge<ET>) returns (ok: bool)
      requires Indexable(View(), edge)
      modifies this
      ensures ok <==> Accepts(old(View()), edge)
      ensures View() == WithEdge(old(View()), edge)
      ensures old(EdgesInPlace(View())) ==>
                (ok <==>
                  && 0 <= edge.StartId < |VertexArray| && 0 <= edge.EndId < |VertexArray|
                  && (edge.StartId == edge.EndId ==> bDirectSelf)
                  && !old(HasEdge(View(), edge.StartId, edge.EndId)))
      ensures !ok ==> View() == old(View())
      ensures forall k :: k in old(EdgeMap) ==> k in EdgeMap && EdgeMap[k] == old(EdgeMap)[k]
      ensures old(Consistent(View())) ==> Consistent(View())
    {
      hide KeyOf, ParentsAgree, EdgesInPlace, HasEdge;
      ghost var was := View();
      if EdgesInPlace(was) {
        LookupFindsTheEdge(was, edge.StartId, edge.EndId);
      }
      if Consistent(was) {
        EdgeKeepsConsistent(was, edge);
      }
      ok := AddToMap(edge);
      if ok && backward {
        ParentEdges := WithParent(ParentEdges, edge.EndId, edge.StartId);
      }
      assert View() == WithEdge(was, edge);
    }

    /** TDirectedGraph::AddEdge, which the backward graph's AddEdge calls first. */
    method AddToMap(edge: TEdge<ET>) returns (ok: bool)
      modifies this`EdgeMap
      ensures ok <==> Accepts(old(View()), edge)
      ensures EdgeMap == if ok then old(EdgeMap)[KeyOf(edge.StartId, edge.EndId) := edge] else old(EdgeMap)
    {
      hide KeyOf;
      if edge.StartId == edge.EndId {
        if !bDirectSelf {
          return false;
        }
      }
      var fromValid := IsValidVertexIndex(edge.StartId);
      var toValid := IsValidVertexIndex(edge.EndId);
      if fromValid && toValid {
        var key := KeyOf(edge.StartId, edge.EndId);
        if key in EdgeMap {
          return false;
        }
        EdgeMap := EdgeMap[key := edge];
        return true;
      }
      return false;
    }

    method Reset()
      modifies this
      ensures View() == Cleared(old(View()))
      ensures Consistent(View())
    {
      EdgeMap := map[];
      VertexArray := [];
      ParentEdges := [];
    }

    method IsValidVertexIndex(index: int32) returns (ok: bool)
      ensures ok <==> IsVertexOf(View(), index)
    {
      ok := index >= 0 && index < |VertexArray|;
    }

    method IsValidEdge(startId: int32, endId: int32) returns (ok: bool)
      ensures ok <==> KeyOf(startId, endId) in EdgeMap
      ensures EdgesInPlace(View()) ==> (ok <==> HasEdge(View(), startId, endId))
    {
      hide KeyOf;
      ok := KeyOf(startId, endId) in EdgeMap;
      if EdgesInPlace(View()) {
        LookupFindsTheEdge(View(), startId, endId);
      }
    }

    /** In the order in which std::map is walked: by ascending key. */
    method GetEdgeKeys() returns (count: int, keys: seq<uint64>)
      ensures keys == SortedKeys(EdgeMap.Keys)
      ensures count == |EdgeMap|
    {
      count := |EdgeMap|;
      keys := [];
      var rest := EdgeMap.Keys;
      while rest != {}
        invariant keys + SortedKeys(rest) == SortedKeys(EdgeMap.Keys)
        decreases rest
      {
        hide SortedKeys, IsLeast;
        LeastExists(rest);
        var k :| k in rest && IsLeast(rest, k);
        LeastComesNext(keys, rest, k);
        keys := keys + [k];
        rest := rest - {k};
      }
    }

    /** With `bAllocBuffer` the stream goes into a block of its own, whose address is lost: the
        pointer is passed by value, so that the caller's buffer stays as it is. */
    method Seriallize(outBuffer: array<byte>, bAllocBuffer: bool) returns (outSize: nat)
      requires Lawful(cv) && Lawful(ce)
      requires |VertexArray| <= MAX_COUNT && |EdgeMap| <= MAX_COUNT
      requires !bAllocBuffer ==> |Encode(cv, ce, StreamOf(View()))| <= outBuffer.Length
      modifies outBuffer
      ensures outSize == |Encode(cv, ce, StreamOf(View()))|
      ensures !bAllocBuffer ==> outBuffer[..] == Encode(cv, ce, StreamOf(View())) + old(outBuffer[outSize..])
      ensures bAllocBuffer ==> outBuffer[..] == old(outBuffer[..])
      ensures !bAllocBuffer ==> exists s :: IsStreamOf(View(), s) && StreamLaidOut(cv, ce, s, outBuffer[..])
    {
      hide Encode, EncodedSize, SortedKeys, Lawful, IsStreamOf, StreamLaidOut;
      ghost var s := StreamOf(View());
      StreamOfIsStreamOf(View());
      outSize := EncodedSize(cv.size, ce.size, |VertexArray|, |EdgeMap|);
      EncodedLength(cv, ce, s);
      var buffer := outBuffer;
      if bAllocBuffer {
        buffer := new byte[outSize];
      }
      ghost var was := buffer[..];
      var count, edgeKeys := GetEdgeKeys();
      var edges := Lookup(EdgeMap, edgeKeys);
      assert s == Stream(bDirectSelf, VertexArray, edgeKeys, edges);
      WriteStream(buffer, bDirectSelf, VertexArray, edgeKeys, edges);
      assert Written(buffer, was, Encode(cv, ce, s));
      if !bAllocBuffer {
        EncodedIsLaidOut(cv, ce, s, outBuffer[..]);
      }
    }

    /** The body of Seriallize once the sizes are known: six copies, three of them in loops. */
    method WriteStream(outBuffer: array<byte>, direct: bool, vertices: seq<TVertex<VT>>,
                       keys: seq<uint64>, edges: seq<TEdge<ET>>)
      requires |vertices| <= MAX_COUNT && |keys| <= MAX_COUNT
      requires |Encode(cv, ce, Stream(direct, vertices, keys, edges))| <= outBuffer.Length
      modifies outBuffer
      ensures Written(outBuffer, old(outBuffer[..]), Encode(cv, ce, Stream(direct, vertices, keys, edges)))
    {
      ghost var was := outBuffer[..];
      ghost var all := [];
      assert Written(outBuffer, was, all);
      hide Written, BytesOf, VertexBytes, KeyBytes, EdgeBytes, I32Bytes, BoolBytes;
      var index := 0;
      index, all := Append(outBuffer, index, BoolBytes(direct), was, all);
      assert all == BoolBytes(direct);
      index, all := Append(outBuffer, index, I32Bytes(|vertices|), was, all);
      index, all := AppendEach(outBuffer, index, VertexBytes(cv), vertices, was, all);
      index, all := Append(outBuffer, index, I32Bytes(|keys|), was, all);
      index, all := AppendEach(outBuffer, index, KeyBytes(), keys, was, all);
      index, all := AppendEach(outBuffer, index, EdgeBytes(ce), edges, was, all);
    }

    /** Reads any stream whatever stands in `inBuffer`; `s` names what that is.  Like the source
        it takes the stream's word for all sizes, so the buffer must hold all of it. */
    method Deseriallize(inBuffer: seq<byte>, reset: ResetKind<VT>, ghost s: Stream<VT, ET>)
      requires Lawful(cv) && Lawful(ce)
      requires Countable(s) && Encode(cv, ce, s) <= inBuffer
      requires Rebuildable(View(), s, reset)
      modifies this
      ensures View() == Rebuilt(old(View()), s, reset)
    {
      hide Encode, BytesOf, WithVertices, WithEdges, Lawful, EdgePart, ReadI32, VertexBytes, EdgeBytes, KeyBytes;
      ghost var was := View();
      Reset();
      var index := 0;
      EncodeSplits(cv, ce, s, inBuffer);
      bDirectSelf := inBuffer[index] != 0;
      index := index + 1;
      var vertexCount := ReadI32(inBuffer[index..index + 4]);
      index := index + 4;
      VertexArray := if reset.EmptyFirst? then [] else Blanks(vertexCount, reset.blank);
      assert View() == Prepared(was, s, reset);
      index := ReadVertices(inBuffer, index, vertexCount, s.vertices, EdgePart(ce, s));
      EdgePartSplits(ce, s, inBuffer[index..]);
      assert inBuffer[index..][..4] == inBuffer[index..index + 4];
      assert inBuffer[index..][4..] == inBuffer[index + 4..];
      var edgeCount := ReadI32(inBuffer[index..index + 4]);
      index := index + 4;
      var edgeKeys;
      index, edgeKeys := ReadKeys(inBuffer, index, edgeCount, s.keys, BytesOf(EdgeBytes(ce), s.edges));
      EdgeMap := map[];
      ReadEdges(inBuffer, index, edgeCount, s.edges);
    }

    method ReadVertices(inBuffer: seq<byte>, start: nat, count: int, ghost vs: seq<TVertex<VT>>, ghost rest: seq<byte>)
      returns (index: nat)
      requires Lawful(cv)
      requires count == |vs| && start <= |inBuffer|
      requires BytesOf(VertexBytes(cv), vs) + rest <= inBuffer[start..]
      requires |VertexArray| + |vs| <= MAX_COUNT
      modifies this
      ensures View() == WithVertices(old(View()), vs)
      ensures index <= |inBuffer| && rest <= inBuffer[index..]
    {
      index := start;
      ghost var was := View();
      var size := 4 + cv.size;
      var i := 0;
      assert vs[0..] == vs;
      while i < count
        invariant 0 <= i <= count && index <= |inBuffer|
        invariant View() == WithVertices(was, vs[..i])
        invariant BytesOf(VertexBytes(cv), vs[i..]) + rest <= inBuffer[index..]
      {
        hide BytesOf, WithVertices, WithVertex, VertexBytes, ReadVertex, Lawful, Consistent;
        VertexReadBack(cv, vs[i]);
        FrontRecord(VertexBytes(cv), size, vs, i, rest, inBuffer, index);
        VerticesExtend(was, vs, i);
        var vertex := ReadVertex(cv, inBuffer[index..index + size]);
        index := index + size;
        AddVertex(vertex.Value);
        i := i + 1;
      }
      NoRecordsLeft(VertexBytes(cv), vs, rest, inBuffer[index..]);
      assert vs[..i] == vs;
    }

    /** The keys are read, and never used. */
    method ReadKeys(inBuffer: seq<byte>, start: nat, count: int, ghost ks: seq<uint64>, ghost rest: seq<byte>)
      returns (index: nat, keys: seq<uint64>)
      requires count == |ks| && start <= |inBuffer|
      requires BytesOf(KeyBytes(), ks) + rest <= inBuffer[start..]
      ensures keys == ks
      ensures index <= |inBuffer| && rest <= inBuffer[index..]
    {
      index, keys := start, [];
      var i := 0;
      assert ks[0..] == ks;
      while i < count
        invariant 0 <= i <= count && index <= |inBuffer|
        invariant keys == ks[..i]
        invariant BytesOf(KeyBytes(), ks[i..]) + rest <= inBuffer[index..]
      {
        hide BytesOf;
        FrontRecord(KeyBytes(), 8, ks, i, rest, inBuffer, index);
        ReadBack64(ks[i]);
        keys := keys + [ReadU64(inBuffer[index..index + 8])];
        index := index + 8;
        i := i + 1;
      }
      NoRecordsLeft(KeyBytes(), ks, rest, inBuffer[index..]);
    }

    /** One round of the last loop: copy an edge out of the buffer and add it. */
    method AddEdgeFrom(bytes: seq<byte>, ghost edge: TEdge<ET>)
      requires Lawful(ce) && bytes == EdgeBytes(ce)(edge)
      requires Indexable(View(), edge)
      modifies this
      ensures View() == WithEdge(old(View()), edge)
    {
      EdgeReadBack(ce, edge);
      hide EdgeBytes, Lawful, WithEdge, Indexable, Consistent;
      var value := ReadEdge(ce, bytes);
      var ok := AddEdge(value);
    }

    method ReadEdges(inBuffer: seq<byte>, start: nat, count: int, ghost es: seq<TEdge<ET>>)
      requires Lawful(ce)
      requires count == |es| && start <= |inBuffer|
      requires BytesOf(EdgeBytes(ce), es) <= inBuffer[start..]
      requires AllIndexable(View(), es)
      modifies this
      ensures View() == WithEdges(old(View()), es)
    {
      var index: nat := start;
      ghost var was := View();
      var size := 8 + ce.size;
      var i := 0;
      assert es[0..] == es;
      assert BytesOf(EdgeBytes(ce), es) + [] == BytesOf(EdgeBytes(ce), es);
      while i < count
        invariant 0 <= i <= count && index <= |inBuffer|
        invariant View() == WithEdges(was, es[..i])
        invariant BytesOf(EdgeBytes(ce), es[i..]) + [] <= inBuffer[index..]
      {
        hide BytesOf, WithEdges, WithEdge, EdgeBytes, Lawful, Indexable, AllIndexable;
        EdgeReadBack(ce, es[i]);
        FrontRecord(EdgeBytes(ce), size, es, i, [], inBuffer, index);
        EdgesExtend(was, es, i);
        AddEdgeFrom(inBuffer[index..index + size], es[i]);
        index := index + size;
        i := i + 1;
      }
      assert es[..i] == es;
    }
  }

  /** The two halves together: what one object writes, another of the same type reads back. */
  method CopyThroughBuffer<VT(!new), ET(!new)>(source: TDirectedGraph<VT, ET>, target: TDirectedGraph<VT, ET>,
                                               buffer: array<byte>)
    requires source != target && source.backward == target.backward
    requires source.cv == target.cv && source.ce == target.ce && Lawful(source.cv) && Lawful(source.ce)
    requires Consistent(source.View()) && |source.EdgeMap| <= MAX_COUNT
    requires buffer.Length >= EncodedSize(source.cv.size, source.ce.size, |source.VertexArray|, |source.EdgeMap|)
    modifies buffer, target
    ensures target.View() == source.View() == old(source.View())
  {
    hide Encode, EncodedSize, SortedKeys, Lawful, Consistent, Rebuilt, Rebuildable;
    assert |source.VertexArray| <= MAX_COUNT by {
      ConsistentCounts(source.View());
    }
    ghost var s := StreamOf(source.View());
    EncodedLength(source.cv, source.ce, s);
    var size := source.Seriallize(buffer, false);
    RoundTrip(target.View(), source.View());
    target.Deseriallize(buffer[..], EmptyFirst, s);
  }

  lemma ConsistentCounts<VT, ET>(g: Graph<VT, ET>)
    requires Consistent(g)
    ensures |g.vertices| <= MAX_COUNT
  {
  }

  function Lookup<K(==), V>(m: map<K, V>, keys: seq<K>): (vs: seq<V>)
    requires forall k :: k in keys ==> k in m
    ensures |vs| == |keys| && forall i :: 0 <= i < |vs| ==> vs[i] == m[keys[i]]
  {
    seq(|keys|, i requires 0 <= i < |keys| => m[keys[i]])
  }
}
