/** Core/Templates/DirectedGraph and BackwardGraph: what holds after every sequence of calls.

Deseriallize is among them, in the form that empties the vertex array first. */
module GraphRuns {
  import opened Bytes
  import opened GraphKeys
  import opened GraphModel
  import opened GraphStream

  datatype Op<VT, ET> =
    | AddVertexOp(value: VT)
    | AddEdgeOp(edge: TEdge<ET>)
    | ResetOp
    | LoadOp(stream: Stream<VT, ET>)

  ghost function Apply<VT, ET>(g: Graph<VT, ET>, op: Op<VT, ET>): Graph<VT, ET>
    requires |g.vertices| <= MAX_COUNT
    requires op.AddEdgeOp? ==> Indexable(g, op.edge)
    requires op.LoadOp? ==> Rebuildable(g, op.stream, EmptyFirst)
  {
    match op
    case AddVertexOp(v) => WithVertex(g, v)
    case AddEdgeOp(e) => WithEdge(g, e)
    case ResetOp => Cleared(g)
    case LoadOp(s) => Rebuilt(g, s, EmptyFirst)
  }

  /** How many vertices a run leaves. */
  function Live<VT, ET>(ops: seq<Op<VT, ET>>): nat {
    if ops == [] then 0
    else
      match ops[|ops| - 1] {
        case AddVertexOp(_) => Live(ops[..|ops| - 1]) + 1
        case AddEdgeOp(_) => Live(ops[..|ops| - 1])
        case ResetOp => 0
        case LoadOp(s) => |s.vertices|
      }
  }

  /** The bDirectSelf a run leaves: that of the last stream loaded. */
  function DirectAfter<VT, ET>(direct: bool, ops: seq<Op<VT, ET>>): bool {
    if ops == [] then direct
    else if ops[|ops| - 1].LoadOp? then ops[|ops| - 1].stream.direct
    else DirectAfter(direct, ops[..|ops| - 1])
  }

  /** At no point of the run are there more vertices than an int32 can count. */
  ghost predicate Fits<VT, ET>(ops: seq<Op<VT, ET>>) {
    forall n :: 0 <= n <= |ops| ==> Live(ops[..n]) <= MAX_COUNT
  }

  lemma PrefixFits<VT, ET>(ops: seq<Op<VT, ET>>, i: nat)
    requires Fits(ops) && i <= |ops|
    ensures Fits(ops[..i]) && Live(ops[..i]) <= MAX_COUNT
  {
    hide Live;
    forall n | 0 <= n <= i
      ensures Live(ops[..i][..n]) <= MAX_COUNT
    {
      assert ops[..i][..n] == ops[..n];
    }
  }

  /** One call of any of the operations keeps the invariant. */
  lemma ApplyKeepsConsistent<VT, ET>(g: Graph<VT, ET>, op: Op<VT, ET>)
    requires Consistent(g)
    requires op.AddVertexOp? ==> |g.vertices| < MAX_COUNT
    requires op.LoadOp? ==> |op.stream.vertices| <= MAX_COUNT
    ensures op.AddEdgeOp? ==> Indexable(g, op.edge)
    ensures op.LoadOp? ==> Rebuildable(g, op.stream, EmptyFirst)
    ensures Consistent(Apply(g, op)) && Apply(g, op).backward == g.backward
    ensures Apply(g, op).direct == if op.LoadOp? then op.stream.direct else g.direct
    ensures |Apply(g, op).vertices| == match op {
                                         case AddVertexOp(_) => |g.vertices| + 1
                                         case AddEdgeOp(_) => |g.vertices|
                                         case ResetOp => 0
                                         case LoadOp(s) => |s.vertices|
                                       }
  {
    hide KeyOf, EdgesInPlace, ParentsAgree, VerticesNumbered;
    match op {
      case AddVertexOp(v) => VertexKeepsConsistent(g, v);
      case AddEdgeOp(e) => EdgeKeepsConsistent(g, e);
      case ResetOp => ClearedIsConsistent(g);
      case LoadOp(s) => RebuiltIsConsistent(g, s);
    }
  }

  lemma ClearedIsConsistent<VT, ET>(g: Graph<VT, ET>)
    ensures Consistent(Cleared(g))
  {
    ConsistentStart<VT, ET>(g.backward, g.direct);
  }

  /** The graph after a run of operations on a new one. */
  ghost function Run<VT, ET>(backward: bool, direct: bool, ops: seq<Op<VT, ET>>): (g: Graph<VT, ET>)
    requires Fits(ops)
    ensures Consistent(g)
    ensures g.backward == backward && g.direct == DirectAfter(direct, ops) && |g.vertices| == Live(ops)
  {
    hide Consistent, Apply, Fits;
    if ops == [] then ConsistentStart<VT, ET>(backward, direct); NewGraph(backward, direct)
    else
      var last := |ops| - 1;
      PrefixFits(ops, last);
      LiveFits(ops);
      var before := Run(backward, direct, ops[..last]);
      CountFits(before);
      ApplyKeepsConsistent(before, ops[last]);
      Apply(before, ops[last])
  }

  lemma LiveFits<VT, ET>(ops: seq<Op<VT, ET>>)
    requires Fits(ops)
    ensures Live(ops) <= MAX_COUNT
  {
    PrefixFits(ops, |ops|);
    assert ops[..|ops|] == ops;
  }

  lemma CountFits<VT, ET>(g: Graph<VT, ET>)
    requires Consistent(g)
    ensures |g.vertices| <= MAX_COUNT
  {
  }

  predicate Erases<VT, ET>(op: Op<VT, ET>) {
    op.ResetOp? || op.LoadOp?
  }

  ghost predicate Listed<ET>(es: seq<TEdge<ET>>, s: int32, e: int32) {
    exists k :: 0 <= k < |es| && es[k].StartId == s && es[k].EndId == e
  }

  /** A graph with n vertices can hold an edge from s to e: both are vertices of it, and loops
      are allowed if it is one. */
  predicate CanHold(n: nat, direct: bool, s: int32, e: int32) {
    0 <= s < n && 0 <= e < n && (s == e ==> direct)
  }

  /** A stream lists an edge from s to e, and the graph it describes can hold it. */
  ghost predicate StreamBrings<VT, ET>(stream: Stream<VT, ET>, s: int32, e: int32) {
    CanHold(|stream.vertices|, stream.direct, s, e) && Listed(stream.edges, s, e)
  }

  /** Operation i of a run names an edge from s to e, and the graph can hold it at that time. */
  ghost predicate Brings<VT, ET>(direct: bool, ops: seq<Op<VT, ET>>, i: int, s: int32, e: int32) {
    && 0 <= i < |ops|
    && match ops[i] {
         case AddEdgeOp(edge) =>
           && edge.StartId == s && edge.EndId == e
           && CanHold(Live(ops[..i]), DirectAfter(direct, ops[..i]), s, e)
         case LoadOp(stream) => StreamBrings(stream, s, e)
         case _ => false
       }
  }

  /** And nothing after it erased it. */
  ghost predicate AddedBy<VT, ET>(direct: bool, ops: seq<Op<VT, ET>>, i: int, s: int32, e: int32) {
    Brings(direct, ops, i, s, e) && forall j :: i < j < |ops| ==> !Erases(ops[j])
  }

  lemma AddedByPrefix<VT, ET>(direct: bool, ops: seq<Op<VT, ET>>, i: int, s: int32, e: int32)
    requires ops != [] && i < |ops| - 1
    ensures AddedBy(direct, ops, i, s, e) <==>
            AddedBy(direct, ops[..|ops| - 1], i, s, e) && !Erases(ops[|ops| - 1])
  {
    hide Live, DirectAfter, StreamBrings;
    var last := |ops| - 1;
    if 0 <= i {
      assert ops[..last][..i] == ops[..i];
      assert forall j :: i < j < last ==> ops[..last][j] == ops[j];
    }
  }

  /** In every reachable graph and for all pairs of int32s, IsValidEdge answers whether the
      edge was added. */
  lemma {:induction false} ValidEdgeMeansAdded<VT, ET>(backward: bool, direct: bool, ops: seq<Op<VT, ET>>,
                                                       s: int32, e: int32)
    requires Fits(ops)
    ensures KeyOf(s, e) in Run(backward, direct, ops).edges <==> exists i :: AddedBy(direct, ops, i, s, e)
  {
    if ops != [] {
      hide KeyOf, Run, AddedBy, HasEdge, EdgesInPlace, ParentsAgree, Fits, Live, DirectAfter;
      var last := |ops| - 1;
      PrefixFits(ops, last);
      LookupFindsTheEdge(Run(backward, direct, ops), s, e);
      LookupFindsTheEdge(Run(backward, direct, ops[..last]), s, e);
      ValidEdgeMeansAdded(backward, direct, ops[..last], s, e);
      forall i | i < last
        ensures AddedBy(direct, ops, i, s, e) <==> AddedBy(direct, ops[..last], i, s, e) && !Erases(ops[last])
      {
        AddedByPrefix(direct, ops, i, s, e);
      }
      LastOpAdds(backward, direct, ops, s, e);
      AddedByInRange(direct, ops, s, e);
      AddedByInRange(direct, ops[..last], s, e);
    }
  }

  lemma AddedByInRange<VT, ET>(direct: bool, ops: seq<Op<VT, ET>>, s: int32, e: int32)
    ensures forall i :: AddedBy(direct, ops, i, s, e) ==> 0 <= i < |ops|
  {
  }

  lemma RunSteps<VT, ET>(backward: bool, direct: bool, ops: seq<Op<VT, ET>>)
    requires ops != [] && Fits(ops)
    ensures var front := ops[..|ops| - 1];
            var op := ops[|ops| - 1];
            && Fits(front)
            && (op.AddEdgeOp? ==> Indexable(Run(backward, direct, front), op.edge))
            && (op.LoadOp? ==> Rebuildable(Run(backward, direct, front), op.stream, EmptyFirst))
            && (op.LoadOp? ==> |op.stream.vertices| <= MAX_COUNT)
            && |Run(backward, direct, front).vertices| <= MAX_COUNT
            && Run(backward, direct, ops) == Apply(Run(backward, direct, front), op)
  {
    PrefixFits(ops, |ops| - 1);
    LiveFits(ops);
    hide Consistent, Indexable, Rebuildable, Apply, Fits;
    CountFits(Run(backward, direct, ops[..|ops| - 1]));
  }

  /** The edges after the last operation are those before it, unless it erased them, and the
      one it added. */
  lemma LastOpAdds<VT, ET>(backward: bool, direct: bool, ops: seq<Op<VT, ET>>, s: int32, e: int32)
    requires ops != [] && Fits(ops) && Fits(ops[..|ops| - 1])
    ensures var last := |ops| - 1;
            var before := Run(backward, direct, ops[..last]);
            HasEdge(Run(backward, direct, ops), s, e) <==>
            (HasEdge(before, s, e) && !Erases(ops[last])) || AddedBy(direct, ops, last, s, e)
  {
    var last := |ops| - 1;
    var before := Run(backward, direct, ops[..last]);
    RunSteps(backward, direct, ops);
    hide KeyOf, Run, Consistent, HasEdge, StreamBrings, Rebuilt, Fits, Live, DirectAfter, WithEdge, Rebuildable;
    match ops[last] {
      case AddVertexOp(v) => VertexAddsNoEdge(before, v, s, e);
      case AddEdgeOp(edge) => EdgePresent(before, edge, s, e);
      case ResetOp => ClearedHasNoEdge(before, s, e);
      case LoadOp(stream) => LoadedEdges(before, stream, s, e);
    }
  }

  /** After a load there are the edges the stream brings, and no others. */
  lemma LoadedEdges<VT, ET>(was: Graph<VT, ET>, stream: Stream<VT, ET>, s: int32, e: int32)
    requires |stream.vertices| <= MAX_COUNT
    ensures Rebuildable(was, stream, EmptyFirst)
    ensures HasEdge(Rebuilt(was, stream, EmptyFirst), s, e) <==> StreamBrings(stream, s, e)
  {
    hide Consistent, WithVertices, WithEdges, HasEdge;
    RebuiltIsConsistent(was, stream);
    var h := WithVertices(Prepared(was, stream, EmptyFirst), stream.vertices);
    NewIsConsistent(was, stream);
    EdgesPresent(h, stream.edges, s, e);
    NoEdges(h, s, e);
  }

  lemma NewIsConsistent<VT, ET>(was: Graph<VT, ET>, stream: Stream<VT, ET>)
    requires |stream.vertices| <= MAX_COUNT
    ensures Consistent(WithVertices(Prepared(was, stream, EmptyFirst), stream.vertices))
  {
    hide Consistent, WithVertices;
    ConsistentStart<VT, ET>(was.backward, stream.direct);
    assert Prepared(was, stream, EmptyFirst) == NewGraph(was.backward, stream.direct);
    VerticesKeepConsistent(Prepared(was, stream, EmptyFirst), stream.vertices);
  }

  lemma NoEdges<VT, ET>(g: Graph<VT, ET>, s: int32, e: int32)
    requires g.edges == map[]
    ensures !HasEdge(g, s, e)
  {
  }

  /** After adding a list of edges, an edge is there exactly when it was before or is listed and
      the graph can take it at all. */
  lemma {:induction false} EdgesPresent<VT, ET>(g: Graph<VT, ET>, es: seq<TEdge<ET>>, s: int32, e: int32)
    requires Consistent(g)
    ensures AllIndexable(g, es)
    ensures HasEdge(WithEdges(g, es), s, e) <==>
            HasEdge(g, s, e) || (IsVertexOf(g, s) && IsVertexOf(g, e) && (s == e ==> g.direct) && Listed(es, s, e))
  {
    EdgesKeepConsistent(g, es);
    if es != [] {
      hide Consistent, HasEdge, Listed, KeyOf;
      var last := |es| - 1;
      EdgesPresent(g, es[..last], s, e);
      EdgesKeepConsistent(g, es[..last]);
      EdgePresent(WithEdges(g, es[..last]), es[last], s, e);
      ListedLast(es, s, e);
    }
  }

  lemma ListedLast<ET>(es: seq<TEdge<ET>>, s: int32, e: int32)
    requires es != []
    ensures Listed(es, s, e) <==>
            Listed(es[..|es| - 1], s, e) || (es[|es| - 1].StartId == s && es[|es| - 1].EndId == e)
  {
    var front := es[..|es| - 1];
    if Listed(front, s, e) {
      var k :| 0 <= k < |front| && front[k].StartId == s && front[k].EndId == e;
      assert es[k] == front[k];
    }
    if Listed(es, s, e) {
      var k :| 0 <= k < |es| && es[k].StartId == s && es[k].EndId == e;
      assert k < |front| ==> front[k] == es[k];
    }
  }

  lemma EdgePresent<VT, ET>(g: Graph<VT, ET>, x: TEdge<ET>, s: int32, e: int32)
    requires Consistent(g)
    ensures Indexable(g, x)
    ensures HasEdge(WithEdge(g, x), s, e) <==>
            || HasEdge(g, s, e)
            || (IsVertexOf(g, s) && IsVertexOf(g, e) && (s == e ==> g.direct) && x.StartId == s && x.EndId == e)
  {
    EdgeKeepsConsistent(g, x);
    LookupFindsTheEdge(g, x.StartId, x.EndId);
    hide KeyOf, HasEdge, Consistent;
    if Accepts(g, x) {
      EdgesAfterInsert(g, x, s, e);
    }
  }

  lemma VertexAddsNoEdge<VT, ET>(g: Graph<VT, ET>, v: VT, s: int32, e: int32)
    requires |g.vertices| <= MAX_COUNT
    ensures HasEdge(WithVertex(g, v), s, e) <==> HasEdge(g, s, e)
  {
  }

  lemma ClearedHasNoEdge<VT, ET>(g: Graph<VT, ET>, s: int32, e: int32)
    ensures !HasEdge(Cleared(g), s, e)
  {
  }

  // ----- the weight of an edge

  /** The first entry of a list that names an edge from s to e. */
  function FirstListed<ET>(es: seq<TEdge<ET>>, s: int32, e: int32): (k: nat)
    requires Listed(es, s, e)
    ensures k < |es| && es[k].StartId == s && es[k].EndId == e
    ensures forall j :: 0 <= j < k ==> !(es[j].StartId == s && es[j].EndId == e)
  {
    if es[0].StartId == s && es[0].EndId == e then 0
    else
      ListedRest(es, s, e);
      FirstListed(es[1..], s, e) + 1
  }

  lemma ListedRest<ET>(es: seq<TEdge<ET>>, s: int32, e: int32)
    requires Listed(es, s, e) && !(es[0].StartId == s && es[0].EndId == e)
    ensures Listed(es[1..], s, e)
  {
    var k :| 0 <= k < |es| && es[k].StartId == s && es[k].EndId == e;
    assert es[1..][k - 1] == es[k];
  }

  lemma FirstListedFront<ET>(es: seq<TEdge<ET>>, s: int32, e: int32)
    requires es != [] && Listed(es, s, e)
    ensures if Listed(es[..|es| - 1], s, e) then FirstListed(es, s, e) == FirstListed(es[..|es| - 1], s, e)
            else FirstListed(es, s, e) == |es| - 1
  {
    var front, k := es[..|es| - 1], FirstListed(es, s, e);
    if k < |front| {
      assert front[k] == es[k];
    }
  }

  /** The weight with which an operation brings an edge. */
  function WeightBrought<VT, ET>(op: Op<VT, ET>, s: int32, e: int32): ET
    requires op.AddEdgeOp? || (op.LoadOp? && Listed(op.stream.edges, s, e))
  {
    if op.AddEdgeOp? then op.edge.Weight else op.stream.edges[FirstListed(op.stream.edges, s, e)].Weight
  }

  /** A second edge between the same vertices, whatever its weight, is refused, and nothing changes. */
  lemma SecondEdgeIsRefused<VT, ET>(g: Graph<VT, ET>, edge: TEdge<ET>)
    requires Consistent(g) && HasEdge(g, edge.StartId, edge.EndId)
    ensures Indexable(g, edge) && WithEdge(g, edge) == g
  {
    hide KeyOf;
    LookupFindsTheEdge(g, edge.StartId, edge.EndId);
  }

  /** A first one that the graph can hold is put in its place, with its weight. */
  lemma FirstEdgeIsTaken<VT, ET>(g: Graph<VT, ET>, edge: TEdge<ET>)
    requires Consistent(g) && !HasEdge(g, edge.StartId, edge.EndId)
    requires CanHold(|g.vertices|, g.direct, edge.StartId, edge.EndId)
    ensures Indexable(g, edge)
    ensures WithEdge(g, edge).edges == g.edges[KeyOf(edge.StartId, edge.EndId) := edge]
  {
    hide KeyOf;
    EdgeKeepsConsistent(g, edge);
    LookupFindsTheEdge(g, edge.StartId, edge.EndId);
  }

  lemma EdgesStay<VT, ET>(g: Graph<VT, ET>, edge: TEdge<ET>, k: uint64)
    requires Indexable(g, edge) && k in g.edges
    ensures k in WithEdge(g, edge).edges && WithEdge(g, edge).edges[k] == g.edges[k]
  {
  }

  /** Of the entries of a list that name the same edge, the first one counts. */
  lemma {:induction false} FirstEntryCounts<VT, ET>(g: Graph<VT, ET>, es: seq<TEdge<ET>>, s: int32, e: int32)
    requires Consistent(g) && !HasEdge(g, s, e)
    requires CanHold(|g.vertices|, g.direct, s, e) && Listed(es, s, e)
    ensures AllIndexable(g, es)
    ensures var edges := WithEdges(g, es).edges;
            KeyOf(s, e) in edges && edges[KeyOf(s, e)] == es[FirstListed(es, s, e)]
  {
    hide Consistent, KeyOf, HasEdge, FirstListed, WithEdge, Indexable;
    var last := |es| - 1;
    EdgesKeepConsistent(g, es);
    EdgesKeepConsistent(g, es[..last]);
    EdgesExtend(g, es, last);
    assert es[..last + 1] == es;
    FirstListedFront(es, s, e);
    var before := WithEdges(g, es[..last]);
    if Listed(es[..last], s, e) {
      FirstEntryCounts(g, es[..last], s, e);
      EdgesStay(before, es[last], KeyOf(s, e));
    } else {
      EdgesPresent(g, es[..last], s, e);
      FirstEdgeIsTaken(before, es[last]);
    }
  }

  lemma LoadedWeight<VT, ET>(was: Graph<VT, ET>, stream: Stream<VT, ET>, s: int32, e: int32)
    requires |stream.vertices| <= MAX_COUNT && StreamBrings(stream, s, e)
    ensures Rebuildable(was, stream, EmptyFirst)
    ensures var edges := Rebuilt(was, stream, EmptyFirst).edges;
            KeyOf(s, e) in edges && edges[KeyOf(s, e)] == stream.edges[FirstListed(stream.edges, s, e)]
  {
    hide Consistent, WithVertices, WithEdges, HasEdge, KeyOf;
    RebuiltIsConsistent(was, stream);
    var h := WithVertices(Prepared(was, stream, EmptyFirst), stream.vertices);
    NewIsConsistent(was, stream);
    NoEdges(h, s, e);
    FirstEntryCounts(h, stream.edges, s, e);
  }

  /** In every reachable graph an edge has the weight with which it was first added since the last
      Reset or load: later additions of the same edge change nothing. */
  lemma {:induction false} FirstWeightStays<VT, ET>(backward: bool, direct: bool, ops: seq<Op<VT, ET>>, i: int,
                                                     s: int32, e: int32)
    requires Fits(ops)
    requires AddedBy(direct, ops, i, s, e)
    requires forall j :: AddedBy(direct, ops, j, s, e) ==> i <= j
    ensures 0 <= i < |ops| && (ops[i].AddEdgeOp? || (ops[i].LoadOp? && Listed(ops[i].stream.edges, s, e)))
    ensures var edges := Run(backward, direct, ops).edges;
            KeyOf(s, e) in edges && edges[KeyOf(s, e)] == TEdge(s, e, WeightBrought(ops[i], s, e))
  {
    var last := |ops| - 1;
    var front, op := ops[..last], ops[last];
    RunSteps(backward, direct, ops);
    var before := Run(backward, direct, front);
    if i == last {
      LastWeight(backward, direct, ops, s, e);
    } else {
      forall j | j < last
        ensures AddedBy(direct, ops, j, s, e) <==> AddedBy(direct, front, j, s, e) && !Erases(op)
      {
        AddedByPrefix(direct, ops, j, s, e);
      }
      hide KeyOf, Run, Fits, Live, DirectAfter, Consistent, FirstListed, WithEdge, Indexable, Rebuilt, Rebuildable;
      AddedByInRange(direct, front, s, e);
      FirstWeightStays(backward, direct, front, i, s, e);
      if op.AddEdgeOp? {
        EdgesStay(before, op.edge, KeyOf(s, e));
      }
    }
  }

  /** The last operation is the first to bring the edge. */
  lemma LastWeight<VT, ET>(backward: bool, direct: bool, ops: seq<Op<VT, ET>>, s: int32, e: int32)
    requires ops != [] && Fits(ops)
    requires AddedBy(direct, ops, |ops| - 1, s, e)
    requires forall j :: AddedBy(direct, ops, j, s, e) ==> |ops| - 1 <= j
    ensures var edges := Run(backward, direct, ops).edges;
            KeyOf(s, e) in edges && edges[KeyOf(s, e)] == TEdge(s, e, WeightBrought(ops[|ops| - 1], s, e))
  {
    var last := |ops| - 1;
    var front, op := ops[..last], ops[last];
    RunSteps(backward, direct, ops);
    var before := Run(backward, direct, front);
    hide KeyOf, Run, Fits, Live, DirectAfter, Consistent, FirstListed, WithEdge;
    hide Indexable, Rebuilt, Rebuildable, HasEdge;
    if op.LoadOp? {
      LoadedWeight(before, op.stream, s, e);
    } else {
      if HasEdge(before, s, e) {
        HeldBefore(backward, direct, ops, s, e);
        assert false;
      }
      FirstEdgeIsTaken(before, op.edge);
    }
  }

  lemma HeldBefore<VT, ET>(backward: bool, direct: bool, ops: seq<Op<VT, ET>>, s: int32, e: int32)
    requires ops != [] && Fits(ops) && Fits(ops[..|ops| - 1]) && !Erases(ops[|ops| - 1])
    requires HasEdge(Run(backward, direct, ops[..|ops| - 1]), s, e)
    ensures exists j :: 0 <= j < |ops| - 1 && AddedBy(direct, ops, j, s, e)
  {
    hide KeyOf, Run, AddedBy, HasEdge, Fits;
    var front := ops[..|ops| - 1];
    LookupFindsTheEdge(Run(backward, direct, front), s, e);
    ValidEdgeMeansAdded(backward, direct, front, s, e);
    var j :| AddedBy(direct, front, j, s, e);
    AddedByInRange(direct, front, s, e);
    AddedByPrefix(direct, ops, j, s, e);
  }

  // ----- the vertices

  function ValuesOf<VT>(vertices: seq<TVertex<VT>>): (values: seq<VT>)
    ensures |values| == |vertices|
    ensures forall i :: 0 <= i < |values| ==> values[i] == vertices[i].Value
  {
    seq(|vertices|, i requires 0 <= i < |vertices| => vertices[i].Value)
  }

  /** The vertex values added since the last Reset, in order; a load starts with the stream's. */
  function ValuesAdded<VT, ET>(ops: seq<Op<VT, ET>>): (values: seq<VT>)
    ensures |values| == Live(ops)
  {
    if ops == [] then []
    else
      match ops[|ops| - 1] {
        case AddVertexOp(v) => ValuesAdded(ops[..|ops| - 1]) + [v]
        case AddEdgeOp(_) => ValuesAdded(ops[..|ops| - 1])
        case ResetOp => []
        case LoadOp(s) => ValuesOf(s.vertices)
      }
  }

  ghost predicate Numbered<VT>(vertices: seq<TVertex<VT>>, values: seq<VT>) {
    && |vertices| == |values|
    && forall i :: 0 <= i < |vertices| ==> vertices[i].Index == i && vertices[i].Value == values[i]
  }

  lemma LoadedVertices<VT, ET>(was: Graph<VT, ET>, stream: Stream<VT, ET>)
    requires Rebuildable(was, stream, EmptyFirst)
    ensures Numbered(Rebuilt(was, stream, EmptyFirst).vertices, ValuesOf(stream.vertices))
  {
    hide WithVertices, WithEdges, AllIndexable, ValuesOf;
    var g := Prepared(was, stream, EmptyFirst);
    VerticesAppended(g, stream.vertices);
    forall i | 0 <= i < |stream.vertices|
      ensures WithVertices(g, stream.vertices).vertices[i] == TVertex(i, stream.vertices[i].Value)
    {
      assert i == |g.vertices| + i;
    }
  }

  lemma AppliedVertices<VT, ET>(g: Graph<VT, ET>, op: Op<VT, ET>, values: seq<VT>)
    requires |g.vertices| <= MAX_COUNT
    requires op.AddEdgeOp? ==> Indexable(g, op.edge)
    requires op.LoadOp? ==> Rebuildable(g, op.stream, EmptyFirst)
    requires Numbered(g.vertices, values)
    ensures Numbered(Apply(g, op).vertices,
                     match op {
                       case AddVertexOp(v) => values + [v]
                       case AddEdgeOp(_) => values
                       case ResetOp => []
                       case LoadOp(s) => ValuesOf(s.vertices)
                     })
  {
    hide Indexable, Rebuildable, Rebuilt, Accepts;
    if op.LoadOp? {
      LoadedVertices(g, op.stream);
    }
  }

  /** In every reachable graph the vertices are those, numbered from 0. */
  lemma {:induction false} VerticesAreThoseAdded<VT, ET>(backward: bool, direct: bool, ops: seq<Op<VT, ET>>)
    requires Fits(ops)
    ensures Numbered(Run(backward, direct, ops).vertices, ValuesAdded(ops))
  {
    if ops != [] {
      RunSteps(backward, direct, ops);
      hide Run, Consistent, Indexable, Fits, Live, Rebuildable, DirectAfter, Numbered, Apply;
      var last := |ops| - 1;
      VerticesAreThoseAdded(backward, direct, ops[..last]);
      AppliedVertices(Run(backward, direct, ops[..last]), ops[last], ValuesAdded(ops[..last]));
    }
  }

  /** And in a backward graph, u is listed as a parent of v exactly when an edge from u to v was added. */
  lemma ParentsMeanAdded<VT, ET>(direct: bool, ops: seq<Op<VT, ET>>, u: int32, v: int32)
    requires Fits(ops) && 0 <= v < Live(ops)
    ensures var parents := Run(true, direct, ops).parents;
            && |parents| == Live(ops)
            && (u in parents[v].AdjustVertexes <==> exists i :: AddedBy(direct, ops, i, u, v))
  {
    hide KeyOf, Run, AddedBy, HasEdge, Fits, Live;
    ValidEdgeMeansAdded(true, direct, ops, u, v);
    LookupFindsTheEdge(Run(true, direct, ops), u, v);
  }
}
