/**
 * Concrete configurations, each with what circulating or indexing over it
 * yields: two triangles glued along all three of their arcs (the smallest
 * closed mesh), the same mesh with a broken `next` link, and short vertex
 * streams fed to each indexer.
 */
module Scenarios {
  import opened Wrappers
  import opened Topology
  import FaceViews
  import VertexViews
  import Indexing

  const V0 := VertexKey(0)
  const V1 := VertexKey(1)
  const V2 := VertexKey(2)
  const A := FaceKey(0)
  const B := FaceKey(1)

  /**
   * Face A circulates v0 -> v1 -> v2 along arcs 0, 1, 2; face B is its other
   * side, arcs 3, 4, 5 being the opposites of 0, 1, 2 and circulating
   * 3 -> 5 -> 4. Each vertex's outgoing arc lies on A.
   */
  function DoubleTriangle(): Storage {
    Storage(
      map[
        EdgeKey(0) := Edge(V1, Some(EdgeKey(3)), Some(EdgeKey(1)), Some(A)),
        EdgeKey(1) := Edge(V2, Some(EdgeKey(4)), Some(EdgeKey(2)), Some(A)),
        EdgeKey(2) := Edge(V0, Some(EdgeKey(5)), Some(EdgeKey(0)), Some(A)),
        EdgeKey(3) := Edge(V0, Some(EdgeKey(0)), Some(EdgeKey(5)), Some(B)),
        EdgeKey(4) := Edge(V1, Some(EdgeKey(1)), Some(EdgeKey(3)), Some(B)),
        EdgeKey(5) := Edge(V2, Some(EdgeKey(2)), Some(EdgeKey(4)), Some(B))],
      map[A := Face(EdgeKey(0)), B := Face(EdgeKey(3))],
      map[V0 := Vertex(Some(EdgeKey(0))), V1 := Vertex(Some(EdgeKey(1))), V2 := Vertex(Some(EdgeKey(2)))])
  }

  /** The arcs of face A, in `next` order. */
  const FaceA := [EdgeKey(0), EdgeKey(1), EdgeKey(2)]

  lemma FaceAIsCycle()
    ensures FaceViews.FaceCycle(DoubleTriangle(), FaceA)
  {
    var m := DoubleTriangle();
    assert NextOf(m, FaceA[0]) == Some(FaceA[1]);
    assert NextOf(m, FaceA[1]) == Some(FaceA[2]);
    assert NextOf(m, FaceA[2]) == Some(FaceA[0]);
  }

  /** A triangle has three arcs. */
  method TriangleArity() returns (count: nat)
    ensures count == 3
  {
    FaceAIsCycle();
    count := FaceViews.Arity(FaceViews.FaceView(A, DoubleTriangle()), FaceA);
  }

  /** Every arc of face A has face B on its other side: three neighbours, each B. */
  method TriangleNeighbors() returns (fs: seq<FaceKey>)
    ensures fs == [B, B, B]
  {
    var m := DoubleTriangle();
    FaceAIsCycle();
    FaceViews.CycleIsWalk(m, FaceA);
    fs := FaceViews.ReachableNeighboringFaces(FaceViews.FaceView(A, m), FaceA);
    FaceViews.NeighborFacesClosed(m, FaceA);
    var nbrs := FaceViews.NeighborFaces(m, FaceA);
    TakeWhileAll(nbrs, m.faces.Keys);
    assert nbrs == [B, B, B];
  }

  /** The vertices of face A, in circulation order: the destinations of its arcs. */
  method TriangleVertices() returns (vs: seq<VertexKey>)
    ensures vs == [V1, V2, V0]
  {
    var m := DoubleTriangle();
    FaceAIsCycle();
    FaceViews.CycleIsWalk(m, FaceA);
    vs := FaceViews.ReachableVertices(FaceViews.FaceView(A, m), FaceA);
    FaceViews.DestinationsAt(m, FaceA);
    CycleStoredAll(m);
    var d := FaceViews.Destinations(m, FaceA);
    assert d == [V1, V2, V0];
    TakeWhileAll(d, m.vertices.Keys);
  }

  lemma CycleStoredAll(m: Storage)
    requires m == DoubleTriangle()
    ensures TakeWhileIn(FaceA, m.edges.Keys) == FaceA
  {
    TakeWhileAll(FaceA, m.edges.Keys);
  }

  /** On the closed double triangle, face A shares all of its vertices with its
      neighbours. */
  method TriangleMutuals() returns (r: set<VertexKey>)
    ensures r == {V0, V1, V2}
  {
    WalksOfAB();
    NeighborsOfA();
    KeysOfA();
    KeysOfB();
    r := SharedWithB(DoubleTriangle(), map[A := FaceA, B := FaceB]);
  }

  /** The mutual vertices of a face A whose one neighbour, met three times, is B. */
  method SharedWithB(m: Storage, walks: map<FaceKey, seq<EdgeKey>>) returns (r: set<VertexKey>)
    requires A in m.faces && FaceViews.WalksOf(m, walks) && walks == map[A := FaceA, B := FaceB]
    requires TakeWhileIn(FaceViews.NeighborFaces(m, FaceA), m.faces.Keys) == [B, B, B]
    requires FaceViews.VertexKeys(m, FaceA) == {V0, V1, V2} && FaceViews.VertexKeys(m, FaceB) == {V0, V1, V2}
    ensures r == {V0, V1, V2}
  {
    r := FaceViews.ReachableMutuals(FaceViews.FaceView(A, m), walks);
    forall x ensures x in r <==> x in {V0, V1, V2} {
      assert walks[[B, B, B][0]] == FaceB;
    }
  }

  lemma WalksOfAB()
    ensures FaceViews.WalksOf(DoubleTriangle(), map[A := FaceA, B := FaceB])
  {
    FaceAIsCycle();
    FaceViews.CycleIsWalk(DoubleTriangle(), FaceA);
    BWalk();
  }

  lemma NeighborsOfA()
    ensures TakeWhileIn(FaceViews.NeighborFaces(DoubleTriangle(), FaceA), DoubleTriangle().faces.Keys) == [B, B, B]
  {
    var m := DoubleTriangle();
    assert FaceViews.OppositeFace(m, FaceA[0]) == Some(B);
    assert FaceViews.OppositeFace(m, FaceA[1]) == Some(B);
    assert FaceViews.OppositeFace(m, FaceA[2]) == Some(B);
    FaceViews.NeighborFacesClosed(m, FaceA);
    var nbrs := FaceViews.NeighborFaces(m, FaceA);
    assert nbrs[0] == B && nbrs[1] == B && nbrs[2] == B;
    assert nbrs == [B, B, B];
    assert B in m.faces.Keys;
    TakeWhileAll(nbrs, m.faces.Keys);
  }

  lemma KeysOfA()
    ensures FaceViews.VertexKeys(DoubleTriangle(), FaceA) == {V0, V1, V2}
  {
    var m := DoubleTriangle();
    FaceViews.DestinationsAt(m, FaceA);
    TakeWhileAll(FaceA, m.edges.Keys);
    var d := FaceViews.Destinations(m, FaceA);
    assert d == [V1, V2, V0];
    TakeWhileAll(d, m.vertices.Keys);
  }

  lemma KeysOfB()
    ensures FaceViews.VertexKeys(DoubleTriangle(), FaceB) == {V0, V1, V2}
  {
    var m := DoubleTriangle();
    BWalk();
    FaceViews.DestinationsAt(m, FaceB);
    TakeWhileAll(FaceB, m.edges.Keys);
    var d := FaceViews.Destinations(m, FaceB);
    assert d == [V0, V2, V1];
    TakeWhileAll(d, m.vertices.Keys);
  }

  /** The arcs of face B, in `next` order. */
  const FaceB := [EdgeKey(3), EdgeKey(5), EdgeKey(4)]

  lemma BWalk()
    ensures FaceViews.FaceCycle(DoubleTriangle(), FaceB)
    ensures FaceViews.FaceWalk(DoubleTriangle(), EdgeKey(3), FaceB)
  {
    var m := DoubleTriangle();
    assert NextOf(m, FaceB[0]) == Some(FaceB[1]);
    assert NextOf(m, FaceB[1]) == Some(FaceB[2]);
    assert NextOf(m, FaceB[2]) == Some(FaceB[0]);
    FaceViews.CycleIsWalk(m, FaceB);
  }

  /** The vertices of face B, in circulation order. */
  method BVertices() returns (vs: seq<VertexKey>)
    ensures vs == [V0, V2, V1]
  {
    var m := DoubleTriangle();
    BWalk();
    vs := FaceViews.ReachableVertices(FaceViews.FaceView(B, m), FaceB);
    FaceViews.DestinationsAt(m, FaceB);
    TakeWhileAll(FaceB, m.edges.Keys);
    var d := FaceViews.Destinations(m, FaceB);
    assert d == [V0, V2, V1];
    TakeWhileAll(d, m.vertices.Keys);
  }

  /** Around v0 the outgoing arcs are 0 and 5 and the incoming arcs 3 and 2. */
  lemma FanOfV0()
    ensures VertexViews.FanCycle(DoubleTriangle(), [EdgeKey(0), EdgeKey(5)], [EdgeKey(3), EdgeKey(2)])
  {
    var m := DoubleTriangle();
    assert VertexViews.Incoming(m, EdgeKey(0)) == Some(EdgeKey(3));
    assert VertexViews.Incoming(m, EdgeKey(5)) == Some(EdgeKey(2));
    assert NextOf(m, EdgeKey(3)) == Some(EdgeKey(5));
    assert NextOf(m, EdgeKey(2)) == Some(EdgeKey(0));
  }

  /** A vertex of a closed pair of triangles has two incoming arcs. */
  method IncomingAtV0() returns (count: nat)
    ensures count == 2
  {
    FanOfV0();
    count := VertexViews.IncomingCount(VertexViews.VertexView(V0, DoubleTriangle()), [EdgeKey(0), EdgeKey(5)], [EdgeKey(3), EdgeKey(2)]);
  }

  /** The faces around v0: B on the far side of arc 3, then A. */
  method FacesAtV0() returns (fs: seq<FaceKey>)
    ensures fs == [B, A]
  {
    var m := DoubleTriangle();
    FanOfV0();
    VertexViews.FanCycleIsFan(m, [EdgeKey(0), EdgeKey(5)], [EdgeKey(3), EdgeKey(2)]);
    fs := VertexViews.NeighboringFaces(VertexViews.VertexView(V0, m), [EdgeKey(3), EdgeKey(2)]);
    VertexViews.IncidentFacesClosed(m, [EdgeKey(3), EdgeKey(2)]);
    var faces := VertexViews.IncidentFaces(m, [EdgeKey(3), EdgeKey(2)]);
    assert faces == [B, A];
    TakeWhileAll(faces, m.faces.Keys);
  }

  /** Face A with the `next` link of arc 1 removed. */
  function Broken(): Storage {
    var m := DoubleTriangle();
    m.(edges := m.edges[EdgeKey(1) := Edge(V2, Some(EdgeKey(4)), None, Some(A))])
  }

  /** A broken `next` link ends the circulation after the arc that lacks it. */
  method BrokenArity() returns (count: nat)
    ensures count == 2
  {
    var m := Broken();
    var p := [EdgeKey(0), EdgeKey(1)];
    assert NextOf(m, p[0]) == Some(p[1]) && NextOf(m, p[1]) == None;
    FaceViews.BrokenChainIsWalk(m, p);
    count := FaceViews.ReachableArity(FaceViews.FaceView(A, m), p);
    TakeWhileAll(p, m.edges.Keys);
  }

  /** The hashing indexer hands out the same index for a key seen before, and no
      vertex the second time. */
  method HashRepeat() returns (first: nat, again: nat, vertex: Option<int>)
    ensures first == 0 && again == 0 && vertex.None?
  {
    var h := new Indexing.HashIndexer<int>();
    var v;
    first, v := h.Index(5, (x: int) => x);
    var _, _ := h.Index(7, (x: int) => x);
    again, vertex := h.Index(5, (x: int) => x);
  }

  /** A cache of one entry forgets a key once another is indexed: the key comes
      back with a fresh index and its vertex is emitted again. */
  method CacheEviction() returns (first: nat, again: nat, vertex: Option<int>)
    ensures first == 0 && again == 2 && vertex == Some(5)
  {
    var c := new Indexing.LruIndexer<int>.WithCapacity(0);
    var v;
    first, v := c.Index(5, (x: int) => x);
    var _, _ := c.Index(7, (x: int) => x);
    again, vertex := c.Index(5, (x: int) => x);
  }

  /** With room for both keys, the cache behaves like the hash map. */
  method CacheHit() returns (first: nat, again: nat, vertex: Option<int>)
    ensures first == 0 && again == 0 && vertex.None?
  {
    var c := new Indexing.LruIndexer<int>.WithCapacity(2);
    var v;
    first, v := c.Index(5, (x: int) => x);
    var _, _ := c.Index(7, (x: int) => x);
    again, vertex := c.Index(5, (x: int) => x);
  }
}
