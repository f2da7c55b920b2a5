/** Core/Templates/DirectedGraph and BackwardGraph: the graph as a value, what its operations
do to it, and what each of them keeps. */
module GraphModel {
  import opened Bytes
  import opened GraphKeys

  const MAX_COUNT := 0x7FFF_FFFF

  datatype TVertex<VT> = TVertex(Index: int32, Value: VT)
  datatype TEdge<ET> = TEdge(StartId: int32, EndId: int32, Weight: ET)

  /** Its constructor ignores the index it is given (GraphType.hpp, line 57). */
  datatype EdgeAdjustList = EdgeAdjustList(Index: int32, AdjustVertexes: set<int32>)

  const EMPTY_LIST := EdgeAdjustList(0, {})

  /** `backward` tells a TBackwardGraph from a plain TDirectedGraph; `parents` is its index. */
  datatype Graph<VT, ET> = Graph(
    backward: bool,
    direct: bool,
    vertices: seq<TVertex<VT>>,
    edges: map<uint64, TEdge<ET>>,
    parents: seq<EdgeAdjustList>)

  // ----- operations

  function NewGraph<VT, ET>(backward: bool, direct: bool): Graph<VT, ET> {
    Graph(backward, direct, [], map[], [])
  }

  function WithVertex<VT, ET>(g: Graph<VT, ET>, v: VT): Graph<VT, ET>
    requires |g.vertices| <= MAX_COUNT
  {
    g.(vertices := g.vertices + [TVertex(|g.vertices|, v)],
       parents := if g.backward then g.parents + [EMPTY_LIST] else g.parents)
  }

  predicate IsVertexOf<VT, ET>(g: Graph<VT, ET>, id: int32) {
    0 <= id < |g.vertices|
  }

  predicate Accepts<VT, ET>(g: Graph<VT, ET>, e: TEdge<ET>) {
    && (e.StartId == e.EndId ==> g.direct)
    && IsVertexOf(g, e.StartId) && IsVertexOf(g, e.EndId)
    && KeyOf(e.StartId, e.EndId) !in g.edges
  }

  /** The parent index has an entry for every edge the graph would take. */
  predicate Indexable<VT, ET>(g: Graph<VT, ET>, e: TEdge<ET>) {
    g.backward && Accepts(g, e) ==> e.EndId < |g.parents|
  }

  function WithParent(parents: seq<EdgeAdjustList>, endId: int32, startId: int32): seq<EdgeAdjustList>
    requires 0 <= endId < |parents|
  {
    parents[endId := parents[endId].(AdjustVertexes := parents[endId].AdjustVertexes + {startId})]
  }

  function WithEdge<VT, ET>(g: Graph<VT, ET>, e: TEdge<ET>): Graph<VT, ET>
    requires Indexable(g, e)
  {
    if !Accepts(g, e) then g
    else g.(edges := g.edges[KeyOf(e.StartId, e.EndId) := e],
            parents := if g.backward then WithParent(g.parents, e.EndId, e.StartId) else g.parents)
  }

  function Cleared<VT, ET>(g: Graph<VT, ET>): Graph<VT, ET> {
    g.(vertices := [], edges := map[], parents := [])
  }

  // ----- what every operation keeps

  ghost predicate HasEdge<VT, ET>(g: Graph<VT, ET>, s: int32, e: int32) {
    exists k :: k in g.edges && g.edges[k].StartId == s && g.edges[k].EndId == e
  }

  ghost predicate VerticesNumbered<VT, ET>(g: Graph<VT, ET>) {
    forall i :: 0 <= i < |g.vertices| ==> g.vertices[i].Index == i
  }

  ghost predicate EdgesInPlace<VT, ET>(g: Graph<VT, ET>) {
    forall k :: k in g.edges ==>
      && IsVertexOf(g, g.edges[k].StartId) && IsVertexOf(g, g.edges[k].EndId)
      && (g.edges[k].StartId == g.edges[k].EndId ==> g.direct)
      && k == KeyOf(g.edges[k].StartId, g.edges[k].EndId)
  }

  function ParentTotal(parents: seq<EdgeAdjustList>): nat {
    if parents == [] then 0 else ParentTotal(parents[..|parents| - 1]) + |parents[|parents| - 1].AdjustVertexes|
  }

  /** The parent index: one entry for each vertex, holding exactly the starts of the edges into
      it, so that all entries together are as many as the edges. */
  ghost predicate ParentsAgree<VT, ET>(g: Graph<VT, ET>) {
    && |g.parents| == |g.vertices|
    && (forall v :: 0 <= v < |g.parents| ==> g.parents[v].Index == 0)
    && (forall u: int32, v: int32 :: 0 <= v < |g.parents| ==> (u in g.parents[v].AdjustVertexes <==> HasEdge(g, u, v)))
    && ParentTotal(g.parents) == |g.edges|
  }

  ghost predicate Consistent<VT, ET>(g: Graph<VT, ET>) {
    && |g.vertices| <= MAX_COUNT
    && VerticesNumbered(g)
    && EdgesInPlace(g)
    && (if g.backward then ParentsAgree(g) else g.parents == [])
  }

  /** IsValidEdge looks a key up; for any two int32s, that is asking for the edge. */
  lemma LookupFindsTheEdge<VT, ET>(g: Graph<VT, ET>, s: int32, e: int32)
    requires EdgesInPlace(g)
    ensures KeyOf(s, e) in g.edges <==> HasEdge(g, s, e)
    ensures HasEdge(g, s, e) ==> g.edges[KeyOf(s, e)].StartId == s && g.edges[KeyOf(s, e)].EndId == e
  {
    hide KeyOf;
    if KeyOf(s, e) in g.edges {
      var edge := g.edges[KeyOf(s, e)];
      KeysAreExact(edge.StartId, edge.EndId, s, e);
    }
  }

  lemma ConsistentStart<VT, ET>(backward: bool, direct: bool)
    ensures Consistent(NewGraph<VT, ET>(backward, direct))
  {
  }

  lemma VertexKeepsConsistent<VT, ET>(g: Graph<VT, ET>, v: VT)
    requires Consistent(g) && |g.vertices| < MAX_COUNT
    ensures Consistent(WithVertex(g, v))
  {
    hide KeyOf;
    var g' := WithVertex(g, v);
    if g.backward {
      assert g'.parents[..|g.parents|] == g.parents;
      forall u: int32, w: int32 | 0 <= w < |g'.parents|
        ensures u in g'.parents[w].AdjustVertexes <==> HasEdge(g', u, w)
      {
        assert HasEdge(g', u, w) <==> HasEdge(g, u, w);
        if w == |g.parents| && HasEdge(g, u, w) {
          assert false;
        }
      }
    }
  }

  lemma EdgeKeepsConsistent<VT, ET>(g: Graph<VT, ET>, e: TEdge<ET>)
    requires Consistent(g)
    ensures Indexable(g, e) && Consistent(WithEdge(g, e))
  {
    hide KeyOf, ParentsAgree, HasEdge;
    if g.backward {
      ParentsCoverVertices(g);
      if Accepts(g, e) {
        ParentsAfterInsert(g, e);
      }
    }
  }

  lemma ParentsCoverVertices<VT, ET>(g: Graph<VT, ET>)
    requires ParentsAgree(g)
    ensures |g.parents| == |g.vertices|
  {
  }

  lemma ParentsAfterInsert<VT, ET>(g: Graph<VT, ET>, e: TEdge<ET>)
    requires g.backward && ParentsAgree(g) && EdgesInPlace(g) && Accepts(g, e)
    ensures ParentsAgree(WithEdge(g, e))
  {
    hide KeyOf, HasEdge, EdgesInPlace;
    var g' := WithEdge(g, e);
    assert |g'.edges| == |g.edges| + 1;
    LookupFindsTheEdge(g, e.StartId, e.EndId);
    TotalAfterInsert(g.parents, e.EndId, e.StartId);
    forall u: int32, v: int32 | 0 <= v < |g'.parents|
      ensures u in g'.parents[v].AdjustVertexes <==> HasEdge(g', u, v)
    {
      EdgesAfterInsert(g, e, u, v);
    }
  }

  lemma EdgesAfterInsert<VT, ET>(g: Graph<VT, ET>, e: TEdge<ET>, s: int32, t: int32)
    requires Indexable(g, e) && Accepts(g, e)
    ensures HasEdge(WithEdge(g, e), s, t) <==> HasEdge(g, s, t) || (s == e.StartId && t == e.EndId)
  {
    hide KeyOf;
    var g' := WithEdge(g, e);
    var key := KeyOf(e.StartId, e.EndId);
    assert g'.edges[key] == e;
    if HasEdge(g, s, t) {
      var k :| k in g.edges && g.edges[k].StartId == s && g.edges[k].EndId == t;
      assert g'.edges[k] == g.edges[k];
    }
  }

  lemma {:induction false} TotalAfterInsert(parents: seq<EdgeAdjustList>, endId: int32, startId: int32)
    requires 0 <= endId < |parents| && startId !in parents[endId].AdjustVertexes
    ensures ParentTotal(WithParent(parents, endId, startId)) == ParentTotal(parents) + 1
  {
    var last, after := |parents| - 1, WithParent(parents, endId, startId);
    if endId == last {
      assert after[..last] == parents[..last];
    } else {
      assert after[..last] == WithParent(parents[..last], endId, startId);
      TotalAfterInsert(parents[..last], endId, startId);
    }
  }
}
