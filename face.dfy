/**
 * Views of faces and regions, and the circulators that walk the arcs of a face
 * along their `next` links (src/graph/view/face.rs).
 *
 * A circulator keeps the source's two fields: the arc it will yield next and a
 * breadcrumb holding the starting arc, cleared once the walk is about to return
 * to it. Its ghost field `Remaining` is the sequence of arcs it has still to
 * yield; `Valid()` ties that sequence to the fields through `FaceTail`.
 */
module FaceViews {
  import opened Wrappers
  import opened Topology

  // ---------------------------------------------------------------- views

  /** A face key paired with the storage it is resolved in. */
  datatype FaceView = FaceView(key: FaceKey, storage: Storage) {
    predicate Valid() { key in storage.faces }

    /** Dereferencing a view: the record of its (present) key. */
    function Record(): Face
      requires Valid()
    {
      storage.faces[key]
    }
  }

  /** A view is built only for a key that is present in storage. */
  function FaceFromKeyedStorage(key: FaceKey, storage: Storage): (r: Option<FaceView>)
    ensures r.Some? <==> key in storage.faces
    ensures r.Some? ==> r.value.Valid() && r.value.key == key && r.value.storage == storage
  {
    if key in storage.faces then Some(FaceView(key, storage)) else None
  }

  /** An arc-anchored cursor that remembers the face of its arc, if any. */
  datatype RegionView = RegionView(storage: Storage, edge: EdgeKey, face: Option<FaceKey>)

  /** A region exists only for a stored arc, and records that arc's face. */
  function RegionFromKeyedStorage(key: EdgeKey, storage: Storage): (r: Option<RegionView>)
    ensures r.Some? <==> key in storage.edges
    ensures r.Some? ==> r.value == RegionView(storage, key, storage.edges[key].face)
  {
    if key in storage.edges then Some(RegionView(storage, key, storage.edges[key].face)) else None
  }

  /** The face a region records, as a view; the face, when recorded, must be
      stored, as consistent storage guarantees. */
  function RegionFace(region: RegionView): (r: Option<FaceView>)
    requires region.face.Some? ==> region.face.value in region.storage.faces
    ensures r.Some? <==> region.face.Some?
    ensures r.Some? ==> r.value.Valid() && Some(r.value.key) == region.face && r.value.storage == region.storage
  {
    match region.face
    case None => None
    case Some(f) => Some(FaceView(f, region.storage))
  }

  /** The region anchored at a face's representative arc, which consistent storage
      guarantees is stored; it records the face of that arc. */
  function IntoRegion(face: FaceView): (r: RegionView)
    requires face.Valid() && face.Record().edge in face.storage.edges
    ensures r.storage == face.storage && r.edge == face.Record().edge
    ensures r.face == face.storage.edges[r.edge].face
    ensures RegionFromKeyedStorage(r.edge, r.storage) == Some(r)
  {
    RegionView(face.storage, face.Record().edge, face.storage.edges[face.Record().edge].face)
  }

  /** The keys of a face together with the keys of its arcs, in circulation order. */
  datatype FaceKeyTopology = FaceKeyTopology(key: FaceKey, edges: seq<EdgeKey>)

  // ------------------------------------------------- the walk around a face

  /**
   * `rest` is exactly what a circulator with breadcrumb `s` and current arc `e`
   * yields: `e` first, and then, as long as the successor of the last yielded arc
   * exists and is not `s`, that successor.
   */
  ghost predicate FaceTail(m: Storage, s: EdgeKey, e: EdgeKey, rest: seq<EdgeKey>)
    decreases |rest|
  {
    && rest != []
    && rest[0] == e
    && match NextOf(m, e)
       case None => |rest| == 1
       case Some(n) => if n == s then |rest| == 1 else FaceTail(m, s, n, rest[1..])
  }

  /** `arcs` is the whole circulation started at `start`. */
  ghost predicate FaceWalk(m: Storage, start: EdgeKey, arcs: seq<EdgeKey>) {
    FaceTail(m, start, start, arcs)
  }

  /** Consistent storage around one face: `cyc` is a cycle of distinct stored arcs
      under `next`, closing from the last back to the first. */
  ghost predicate FaceCycle(m: Storage, cyc: seq<EdgeKey>) {
    && |cyc| >= 1
    && Distinct(cyc)
    && (forall i :: 0 <= i < |cyc| ==> NextOf(m, cyc[i]) == Some(cyc[(i + 1) % |cyc|]))
  }

  /** Each arc of `p` but the last has the following one as its successor. */
  ghost predicate NextChain(m: Storage, p: seq<EdgeKey>) {
    forall i :: 0 <= i < |p| - 1 ==> NextOf(m, p[i]) == Some(p[i + 1])
  }

  /** The walk is determined by the storage: two tails from the same state agree. */
  lemma {:induction false} FaceTailUnique(m: Storage, s: EdgeKey, e: EdgeKey, p: seq<EdgeKey>, q: seq<EdgeKey>)
    requires FaceTail(m, s, e, p) && FaceTail(m, s, e, q)
    ensures p == q
    decreases |p|
  {
    match NextOf(m, e)
    case None =>
    case Some(n) =>
      if n != s {
        FaceTailUnique(m, s, n, p[1..], q[1..]);
        assert p == [e] + p[1..] && q == [e] + q[1..];
      }
  }

  /** Any `next` chain that never revisits the breadcrumb and whose last arc has no
      successor, or has the breadcrumb as successor, is what the circulator yields. */
  lemma {:induction false} ChainIsTail(m: Storage, s: EdgeKey, p: seq<EdgeKey>)
    requires p != [] && NextChain(m, p)
    requires forall i :: 1 <= i < |p| ==> p[i] != s
    requires NextOf(m, p[|p| - 1]) == None || NextOf(m, p[|p| - 1]) == Some(s)
    ensures FaceTail(m, s, p[0], p)
  {
    if |p| > 1 {
      assert NextOf(m, p[0]) == Some(p[1]);
      ChainIsTail(m, s, p[1..]);
    }
  }

  /** On a `next` cycle of length n through the start arc, the walk is exactly
      those n arcs in `next` order, starting with the start arc. */
  lemma CycleIsWalk(m: Storage, cyc: seq<EdgeKey>)
    requires FaceCycle(m, cyc)
    ensures FaceWalk(m, cyc[0], cyc)
  {
    var n := |cyc|;
    forall i | 0 <= i < n - 1 ensures NextOf(m, cyc[i]) == Some(cyc[i + 1]) {
      SuccessorMod(i, n);
    }
    SuccessorMod(n - 1, n);
    ChainIsTail(m, cyc[0], cyc);
  }

  /** A broken link: when the chain of distinct arcs `p` from the start ends at an
      arc with no successor, the walk is that prefix, last arc included. */
  lemma BrokenChainIsWalk(m: Storage, p: seq<EdgeKey>)
    requires p != [] && NextChain(m, p) && Distinct(p)
    requires NextOf(m, p[|p| - 1]) == None
    ensures FaceWalk(m, p[0], p)
  {
    ChainIsTail(m, p[0], p);
  }

  /** Every arc of a walk has a successor, and so is stored, except possibly the last. */
  lemma {:induction false} TailStored(m: Storage, s: EdgeKey, e: EdgeKey, rest: seq<EdgeKey>)
    requires FaceTail(m, s, e, rest)
    ensures forall i :: 0 <= i < |rest| - 1 ==> rest[i] in m.edges
    ensures TakeWhileIn(rest, m.edges.Keys) == if rest[|rest| - 1] in m.edges then rest else rest[..|rest| - 1]
    decreases |rest|
  {
    match NextOf(m, e)
    case None =>
    case Some(n) =>
      if n != s {
        TailStored(m, s, n, rest[1..]);
        forall i | 0 <= i < |rest| - 1 ensures rest[i] in m.edges {
          if i > 0 { assert rest[i] == rest[1..][i - 1]; }
        }
      }
    TakeWhileButLast(rest, m.edges.Keys);
  }

  /** On a consistent face every arc of the cycle resolves into a view. */
  lemma CycleStored(m: Storage, cyc: seq<EdgeKey>)
    requires FaceCycle(m, cyc)
    ensures TakeWhileIn(cyc, m.edges.Keys) == cyc
  {
    forall i | 0 <= i < |cyc| ensures cyc[i] in m.edges {
      assert NextOf(m, cyc[i]).Some?;
    }
    TakeWhileAll(cyc, m.edges.Keys);
  }

  // ---------------------------------------- what the derived circulators yield

  /** The destination vertices of the arcs, stopping at the first arc not stored. */
  function Destinations(m: Storage, arcs: seq<EdgeKey>): seq<VertexKey>
  {
    if arcs == [] || arcs[0] !in m.edges then [] else [m.edges[arcs[0]].vertex] + Destinations(m, arcs[1..])
  }

  /** There is one destination per arc of the stored prefix of `arcs`, and each is
      the vertex its arc points to. */
  lemma {:induction false} DestinationsAt(m: Storage, arcs: seq<EdgeKey>)
    ensures |Destinations(m, arcs)| == |TakeWhileIn(arcs, m.edges.Keys)|
    ensures forall i :: 0 <= i < |Destinations(m, arcs)| ==>
      i < |arcs| && arcs[i] in m.edges && Destinations(m, arcs)[i] == m.edges[arcs[i]].vertex
  {
    TakeWhileInPrefix(arcs, m.edges.Keys);
    if arcs != [] && arcs[0] in m.edges {
      DestinationsAt(m, arcs[1..]);
      var d := Destinations(m, arcs);
      forall i | 0 <= i < |d| ensures i < |arcs| && arcs[i] in m.edges && d[i] == m.edges[arcs[i]].vertex {
        if i > 0 { assert arcs[i] == arcs[1..][i - 1]; }
      }
    }
  }

  /** Around a consistent face whose destinations are all stored, the vertex
      circulation yields the destination of every arc of the cycle, in order. */
  lemma CycleVertexKeys(m: Storage, cyc: seq<EdgeKey>)
    requires FaceCycle(m, cyc)
    requires forall i :: 0 <= i < |cyc| ==> cyc[i] in m.edges && m.edges[cyc[i]].vertex in m.vertices
    ensures |TakeWhileIn(Destinations(m, cyc), m.vertices.Keys)| == |cyc|
    ensures forall i :: 0 <= i < |cyc| ==> TakeWhileIn(Destinations(m, cyc), m.vertices.Keys)[i] == m.edges[cyc[i]].vertex
  {
    CycleStored(m, cyc);
    DestinationsAt(m, cyc);
    TakeWhileAll(Destinations(m, cyc), m.vertices.Keys);
  }

  /** The face on the other side of a stored arc: the face of its opposite arc,
      when the opposite exists, is stored and has a face. */
  function OppositeFace(m: Storage, e: EdgeKey): (r: Option<FaceKey>)
    requires e in m.edges
    ensures r.Some? <==> (m.edges[e].opposite.Some? && m.edges[e].opposite.value in m.edges
                          && m.edges[m.edges[e].opposite.value].face.Some?)
    ensures r.Some? ==> r == m.edges[m.edges[e].opposite.value].face
  {
    match m.edges[e].opposite
    case None => None
    case Some(o) => if o in m.edges then m.edges[o].face else None
  }

  /** The neighbouring faces met along `arcs`: the opposite face of each stored arc,
      skipping arcs that have none, and ending at the first arc not stored. */
  function NeighborFaces(m: Storage, arcs: seq<EdgeKey>): (r: seq<FaceKey>)
    ensures |r| <= |TakeWhileIn(arcs, m.edges.Keys)|
  {
    if arcs == [] || arcs[0] !in m.edges then []
    else OptionToSeq(OppositeFace(m, arcs[0])) + NeighborFaces(m, arcs[1..])
  }

  /** When every arc is stored and has an opposite face, there is one neighbour per
      arc, in order. */
  lemma {:induction false} NeighborFacesClosed(m: Storage, arcs: seq<EdgeKey>)
    requires forall i :: 0 <= i < |arcs| ==> arcs[i] in m.edges && OppositeFace(m, arcs[i]).Some?
    ensures |NeighborFaces(m, arcs)| == |arcs|
    ensures forall i :: 0 <= i < |arcs| ==> Some(NeighborFaces(m, arcs)[i]) == OppositeFace(m, arcs[i])
  {
    if arcs != [] {
      NeighborFacesClosed(m, arcs[1..]);
      var r := NeighborFaces(m, arcs);
      assert r == [OppositeFace(m, arcs[0]).value] + NeighborFaces(m, arcs[1..]);
      forall i | 0 <= i < |arcs| ensures Some(r[i]) == OppositeFace(m, arcs[i]) {
        if i > 0 { assert arcs[i] == arcs[1..][i - 1]; }
      }
    }
  }

  // ------------------------------------------------------------ circulators

  /** Walks the arcs of a face (or region) along `next` from its representative arc. */
  class EdgeCirculator {
    const storage: Storage
    var edge: Option<EdgeKey>
    var breadcrumb: Option<EdgeKey>
    /** The arcs still to be yielded. */
    ghost var Remaining: seq<EdgeKey>

    ghost predicate Valid()
      reads this
    {
      if edge.None? || breadcrumb.None? then Remaining == []
      else FaceTail(storage, breadcrumb.value, edge.value, Remaining)
    }

    /** Starts at the face's representative arc; `arcs` is the walk from there. */
    constructor FromFace(face: FaceView, ghost arcs: seq<EdgeKey>)
      requires face.Valid()
      requires FaceWalk(face.storage, face.Record().edge, arcs)
      ensures Valid() && storage == face.storage
      ensures edge == Some(face.Record().edge) && breadcrumb == edge
      ensures Remaining == arcs
    {
      storage := face.storage;
      edge := Some(face.Record().edge);
      breadcrumb := Some(face.Record().edge);
      Remaining := arcs;
    }

    /** Starts at the region's arc; `arcs` is the walk from there. */
    constructor FromRegion(region: RegionView, ghost arcs: seq<EdgeKey>)
      requires FaceWalk(region.storage, region.edge, arcs)
      ensures Valid() && storage == region.storage
      ensures edge == Some(region.edge) && breadcrumb == edge
      ensures Remaining == arcs
    {
      storage := region.storage;
      edge := Some(region.edge);
      breadcrumb := Some(region.edge);
      Remaining := arcs;
    }

    /** Yields the current arc and advances to its successor, or clears the breadcrumb
        when the successor is the starting arc. */
    method Next() returns (r: Option<EdgeKey>)
      requires Valid()
      modifies this
      ensures Valid()
      ensures old(Remaining) == [] ==> r.None? && Remaining == []
      ensures old(Remaining) != [] ==> r == Some(old(Remaining)[0]) && Remaining == old(Remaining)[1..]
      ensures r.Some? && r.value !in storage.edges ==> Remaining == []
      ensures r.None? ==> edge == old(edge) && breadcrumb == old(breadcrumb)
      ensures r.Some? ==> r == old(edge) && old(breadcrumb).Some?
      ensures r.Some? ==>
        (if NextOf(storage, r.value) == old(breadcrumb) then breadcrumb.None? && edge == old(edge)
         else breadcrumb == old(breadcrumb) && edge == NextOf(storage, r.value))
    {
      if edge.Some? && breadcrumb.Some? {
        var e := edge.value;
        var next := NextOf(storage, e);
        if breadcrumb == next {
          breadcrumb := None;
        } else {
          edge := next;
        }
        Remaining := Remaining[1..];
        r := Some(e);
      } else {
        r := None;
      }
    }

    /** The iterator over edge views: the next arc, if it resolves in storage. */
    method NextView() returns (r: Option<EdgeKey>)
      requires Valid()
      modifies this
      ensures Valid()
      ensures old(Remaining) == [] ==> Remaining == []
      ensures old(Remaining) != [] ==> Remaining == old(Remaining)[1..]
      ensures r == if old(Remaining) != [] && old(Remaining)[0] in storage.edges then Some(old(Remaining)[0]) else None
      ensures r.None? ==> Remaining == []
    {
      r := Next();
      if r.Some? && r.value !in storage.edges {
        r := None;
      }
    }
  }

  /** Maps each circulated arc to its destination vertex. */
  class VertexCirculator {
    const input: EdgeCirculator

    constructor (input: EdgeCirculator)
      ensures this.input == input
    {
      this.input := input;
    }

    ghost predicate Valid()
      reads this, input
    {
      input.Valid()
    }

    /** The destination of the next arc, or nothing once the arcs run out or the
        arc is not stored. */
    method Next() returns (r: Option<VertexKey>)
      requires Valid()
      modifies input
      ensures Valid()
      ensures old(input.Remaining) == [] ==> input.Remaining == []
      ensures old(input.Remaining) != [] ==> input.Remaining == old(input.Remaining)[1..]
      ensures Destinations(input.storage, old(input.Remaining)) == OptionToSeq(r) + Destinations(input.storage, input.Remaining)
      ensures r.None? ==> input.Remaining == []
    {
      var e := input.Next();
      if e.Some? && e.value in input.storage.edges {
        r := Some(input.storage.edges[e.value].vertex);
      } else {
        r := None;
      }
    }

    /** The iterator over vertex views: the next destination, if it resolves. */
    method NextView() returns (r: Option<VertexKey>)
      requires Valid()
      modifies input
      ensures Valid()
      ensures old(input.Remaining) == [] ==> input.Remaining == []
      ensures old(input.Remaining) != [] ==> input.Remaining == old(input.Remaining)[1..]
      ensures r.None? ==> TakeWhileIn(Destinations(input.storage, old(input.Remaining)), input.storage.vertices.Keys) == []
      ensures r.Some? ==> TakeWhileIn(Destinations(input.storage, old(input.Remaining)), input.storage.vertices.Keys)
                          == [r.value] + TakeWhileIn(Destinations(input.storage, input.Remaining), input.storage.vertices.Keys)
    {
      ghost var d := Destinations(input.storage, input.Remaining);
      r := Next();
      TakeWhileStep(d, input.storage.vertices.Keys);
      if r.Some? && r.value !in input.storage.vertices {
        r := None;
      }
    }
  }

  /** Maps each circulated arc to the face of its opposite arc, skipping arcs that
      have none. */
  class FaceCirculator {
    const input: EdgeCirculator

    constructor (input: EdgeCirculator)
      ensures this.input == input
    {
      this.input := input;
    }

    ghost predicate Valid()
      reads this, input
    {
      input.Valid()
    }

    /** Advances past arcs with no opposite face and yields the first opposite face
        found; nothing once the arcs run out or an arc is not stored. */
    method Next() returns (r: Option<FaceKey>)
      requires Valid()
      modifies input
      ensures Valid()
      ensures old(input.Remaining) == [] ==> input.Remaining == []
      ensures old(input.Remaining) != [] ==> |input.Remaining| < |old(input.Remaining)|
      ensures NeighborFaces(input.storage, old(input.Remaining)) == OptionToSeq(r) + NeighborFaces(input.storage, input.Remaining)
      ensures r.None? ==> input.Remaining == []
    {
      var m := input.storage;
      ghost var cur := input.Remaining;
      var e := input.Next();
      while e.Some? && e.value in m.edges
        invariant input.Valid()
        invariant NeighborFaces(m, old(input.Remaining)) == NeighborFaces(m, cur)
        invariant e.Some? ==> cur != [] && cur[0] == e.value && cur[1..] == input.Remaining
        invariant e.Some? && e.value !in m.edges ==> input.Remaining == []
        invariant e.None? ==> input.Remaining == [] && cur == []
        decreases |input.Remaining| + if e.Some? then 1 else 0
      {
        var f := OppositeFace(m, e.value);
        if f.Some? {
          return f;
        }
        cur := input.Remaining;
        e := input.Next();
      }
      return None;
    }

    /** The iterator over face views: the next neighbouring face, if it resolves. */
    method NextView() returns (r: Option<FaceKey>)
      requires Valid()
      modifies input
      ensures Valid()
      ensures old(input.Remaining) == [] ==> input.Remaining == []
      ensures old(input.Remaining) != [] ==> |input.Remaining| < |old(input.Remaining)|
      ensures r.None? ==> TakeWhileIn(NeighborFaces(input.storage, old(input.Remaining)), input.storage.faces.Keys) == []
      ensures r.Some? ==> TakeWhileIn(NeighborFaces(input.storage, old(input.Remaining)), input.storage.faces.Keys)
                          == [r.value] + TakeWhileIn(NeighborFaces(input.storage, input.Remaining), input.storage.faces.Keys)
    {
      ghost var d := NeighborFaces(input.storage, input.Remaining);
      r := Next();
      TakeWhileStep(d, input.storage.faces.Keys);
      if r.Some? && r.value !in input.storage.faces {
        r := None;
      }
    }
  }

  // ------------------------------------------------ consumers of circulation

  /** The number of edge views the face's circulation yields. */
  method ReachableArity(face: FaceView, ghost arcs: seq<EdgeKey>) returns (count: nat)
    requires face.Valid()
    requires FaceWalk(face.storage, face.Record().edge, arcs)
    ensures count == |TakeWhileIn(arcs, face.storage.edges.Keys)|
  {
    var c := new EdgeCirculator.FromFace(face, arcs);
    var keys := face.storage.edges.Keys;
    count := 0;
    var e := c.NextView();
    while e.Some?
      invariant c.Valid() && c.storage == face.storage
      invariant e.Some? ==> |TakeWhileIn(arcs, keys)| == count + 1 + |TakeWhileIn(c.Remaining, keys)|
      invariant e.None? ==> |TakeWhileIn(arcs, keys)| == count
      decreases |c.Remaining| + if e.Some? then 1 else 0
    {
      ghost var before := c.Remaining;
      count := count + 1;
      e := c.NextView();
      TakeWhileStep(before, keys);
    }
  }

  /** The arity of a face on consistent storage: the length of its `next` cycle. */
  method Arity(face: FaceView, ghost cyc: seq<EdgeKey>) returns (count: nat)
    requires face.Valid()
    requires FaceCycle(face.storage, cyc) && cyc[0] == face.Record().edge
    ensures count == |cyc|
  {
    CycleIsWalk(face.storage, cyc);
    CycleStored(face.storage, cyc);
    count := ReachableArity(face, cyc);
  }

  /** The arity of a region on consistent storage: the length of the `next` cycle
      through its arc. */
  method RegionArity(region: RegionView, ghost cyc: seq<EdgeKey>) returns (count: nat)
    requires FaceCycle(region.storage, cyc) && cyc[0] == region.edge
    ensures count == |cyc|
  {
    var m := region.storage;
    CycleIsWalk(m, cyc);
    CycleStored(m, cyc);
    var c := new EdgeCirculator.FromRegion(region, cyc);
    count := 0;
    var e := c.NextView();
    while e.Some?
      invariant c.Valid() && c.storage == m
      invariant c.Remaining == cyc[|cyc| - |c.Remaining|..]
      invariant e.Some? ==> count + 1 + |c.Remaining| == |cyc|
      invariant e.None? ==> count == |cyc|
      decreases |c.Remaining| + if e.Some? then 1 else 0
    {
      count := count + 1;
      ghost var before := c.Remaining;
      e := c.NextView();
      if before != [] {
        assert before[0] == cyc[|cyc| - |before|];
        assert cyc[|cyc| - |before|] in m.edges by {
          assert NextOf(m, cyc[|cyc| - |before|]).Some?;
        }
      }
    }
  }

  /** The key topology of a face: its key and the keys of the edge views its
      circulation yields. */
  method ToKeyTopology(face: FaceView, ghost arcs: seq<EdgeKey>) returns (t: FaceKeyTopology)
    requires face.Valid()
    requires FaceWalk(face.storage, face.Record().edge, arcs)
    ensures t.key == face.key
    ensures t.edges == TakeWhileIn(arcs, face.storage.edges.Keys)
  {
    var c := new EdgeCirculator.FromFace(face, arcs);
    var keys := face.storage.edges.Keys;
    var edges := [];
    var e := c.NextView();
    while e.Some?
      invariant c.Valid() && c.storage == face.storage
      invariant e.Some? ==> TakeWhileIn(arcs, keys) == edges + [e.value] + TakeWhileIn(c.Remaining, keys)
      invariant e.None? ==> TakeWhileIn(arcs, keys) == edges
      decreases |c.Remaining| + if e.Some? then 1 else 0
    {
      ghost var before := c.Remaining;
      edges := edges + [e.value];
      e := c.NextView();
      TakeWhileStep(before, keys);
    }
    t := FaceKeyTopology(face.key, edges);
  }

  /** The keys of the vertex views met around a face, in circulation order. */
  method ReachableVertices(face: FaceView, ghost arcs: seq<EdgeKey>) returns (vs: seq<VertexKey>)
    requires face.Valid()
    requires FaceWalk(face.storage, face.Record().edge, arcs)
    ensures vs == TakeWhileIn(Destinations(face.storage, arcs), face.storage.vertices.Keys)
  {
    var m := face.storage;
    var c := new EdgeCirculator.FromFace(face, arcs);
    var vc := new VertexCirculator(c);
    var keys := m.vertices.Keys;
    ghost var all := TakeWhileIn(Destinations(m, arcs), keys);
    vs := [];
    var v := vc.NextView();
    while v.Some?
      invariant vc.Valid() && vc.input.storage == m
      invariant v.Some? ==> all == vs + [v.value] + TakeWhileIn(Destinations(m, vc.input.Remaining), keys)
      invariant v.None? ==> all == vs
      decreases |vc.input.Remaining| + if v.Some? then 1 else 0
    {
      vs := vs + [v.value];
      v := vc.NextView();
    }
  }

  /** The keys of the vertex views met around a region, in circulation order. */
  method RegionVertices(region: RegionView, ghost arcs: seq<EdgeKey>) returns (vs: seq<VertexKey>)
    requires FaceWalk(region.storage, region.edge, arcs)
    ensures vs == TakeWhileIn(Destinations(region.storage, arcs), region.storage.vertices.Keys)
  {
    var m := region.storage;
    var c := new EdgeCirculator.FromRegion(region, arcs);
    var vc := new VertexCirculator(c);
    var keys := m.vertices.Keys;
    ghost var all := TakeWhileIn(Destinations(m, arcs), keys);
    vs := [];
    var v := vc.NextView();
    while v.Some?
      invariant vc.Valid() && vc.input.storage == m
      invariant v.Some? ==> all == vs + [v.value] + TakeWhileIn(Destinations(m, vc.input.Remaining), keys)
      invariant v.None? ==> all == vs
      decreases |vc.input.Remaining| + if v.Some? then 1 else 0
    {
      vs := vs + [v.value];
      v := vc.NextView();
    }
  }

  /** The keys of the face views neighbouring a face, in circulation order. */
  method ReachableNeighboringFaces(face: FaceView, ghost arcs: seq<EdgeKey>) returns (fs: seq<FaceKey>)
    requires face.Valid()
    requires FaceWalk(face.storage, face.Record().edge, arcs)
    ensures fs == TakeWhileIn(NeighborFaces(face.storage, arcs), face.storage.faces.Keys)
  {
    var m := face.storage;
    var c := new EdgeCirculator.FromFace(face, arcs);
    var fc := new FaceCirculator(c);
    var keys := m.faces.Keys;
    ghost var all := TakeWhileIn(NeighborFaces(m, arcs), keys);
    fs := [];
    var f := fc.NextView();
    while f.Some?
      invariant fc.Valid() && fc.input.storage == m
      invariant f.Some? ==> all == fs + [f.value] + TakeWhileIn(NeighborFaces(m, fc.input.Remaining), keys)
      invariant f.None? ==> all == fs
      decreases |fc.input.Remaining| + if f.Some? then 1 else 0
    {
      fs := fs + [f.value];
      f := fc.NextView();
    }
  }

  // ------------------------------------------------------------- mutuals

  /** The left fold of set intersection over `others`, starting from `acc`. */
  function Mutuals<T>(acc: set<T>, others: seq<set<T>>): set<T>
  {
    if others == [] then acc else Mutuals(acc, others[..|others| - 1]) * others[|others| - 1]
  }

  /** An element survives the fold exactly when it is in the start set and in
      every later set. */
  lemma {:induction false} MutualsIff<T>(acc: set<T>, others: seq<set<T>>, x: T)
    ensures x in Mutuals(acc, others) <==> x in acc && forall i :: 0 <= i < |others| ==> x in others[i]
  {
    if others != [] {
      var init := others[..|others| - 1];
      MutualsIff(acc, init, x);
      assert forall i :: 0 <= i < |init| ==> init[i] == others[i];
    }
  }

  /** The set of elements of a sequence. */
  function Elements<T>(s: seq<T>): (r: set<T>)
    ensures forall x <- r :: x in s
    ensures forall i :: 0 <= i < |s| ==> s[i] in r
  {
    set x | x in s
  }

  /** The vertex keys the face with walk `arcs` reaches. */
  ghost function VertexKeys(m: Storage, arcs: seq<EdgeKey>): set<VertexKey> {
    Elements(TakeWhileIn(Destinations(m, arcs), m.vertices.Keys))
  }

  /** `walks` records, for each face it names, the walk from that face's
      representative arc. */
  ghost predicate WalksOf(m: Storage, walks: map<FaceKey, seq<EdgeKey>>) {
    forall g :: g in walks ==> g in m.faces && FaceWalk(m, m.faces[g].edge, walks[g])
  }

  /** The vertex key sets of the faces `fs`, in order. */
  ghost function VertexKeySets(m: Storage, walks: map<FaceKey, seq<EdgeKey>>, fs: seq<FaceKey>): (r: seq<set<VertexKey>>)
    requires forall i :: 0 <= i < |fs| ==> fs[i] in walks
    ensures |r| == |fs|
    ensures forall i :: 0 <= i < |fs| ==> r[i] == VertexKeys(m, walks[fs[i]])
  {
    seq(|fs|, i requires 0 <= i < |fs| => VertexKeys(m, walks[fs[i]]))
  }

  /** Intersects `acc` with the vertex keys of each face of `fs`, in order. */
  method IntersectVertexKeys(m: Storage, acc: set<VertexKey>, fs: seq<FaceKey>, ghost walks: map<FaceKey, seq<EdgeKey>>)
    returns (r: set<VertexKey>)
    requires WalksOf(m, walks)
    requires forall i :: 0 <= i < |fs| ==> fs[i] in walks
    ensures r == Mutuals(acc, VertexKeySets(m, walks, fs))
  {
    ghost var sets := VertexKeySets(m, walks, fs);
    r := acc;
    var i := 0;
    while i < |fs|
      invariant 0 <= i <= |fs|
      invariant r == Mutuals(acc, sets[..i])
    {
      var vs := ReachableVertices(FaceView(fs[i], m), walks[fs[i]]);
      assert sets[..i + 1][..i] == sets[..i];
      r := r * Elements(vs);
      i := i + 1;
    }
    assert sets[..|fs|] == sets;
  }

  /**
   * The vertex keys a face shares with all of its neighbouring faces: the face's
   * own vertex keys intersected, one neighbour after another, with each
   * neighbour's vertex keys.
   */
  method ReachableMutuals(face: FaceView, ghost walks: map<FaceKey, seq<EdgeKey>>) returns (r: set<VertexKey>)
    requires face.Valid() && WalksOf(face.storage, walks) && face.key in walks
    requires var nbrs := TakeWhileIn(NeighborFaces(face.storage, walks[face.key]), face.storage.faces.Keys);
      forall i :: 0 <= i < |nbrs| ==> nbrs[i] in walks
    ensures var nbrs := TakeWhileIn(NeighborFaces(face.storage, walks[face.key]), face.storage.faces.Keys);
      forall x :: x in r <==> x in VertexKeys(face.storage, walks[face.key])
                              && forall i :: 0 <= i < |nbrs| ==> x in VertexKeys(face.storage, walks[nbrs[i]])
  {
    var m := face.storage;
    var own := ReachableVertices(face, walks[face.key]);
    var nbrs := ReachableNeighboringFaces(face, walks[face.key]);
    r := IntersectVertexKeys(m, Elements(own), nbrs, walks);
    ghost var sets := VertexKeySets(m, walks, nbrs);
    forall x ensures x in r <==> x in Elements(own) && forall j :: 0 <= j < |sets| ==> x in sets[j] {
      MutualsIff(Elements(own), sets, x);
    }
  }
}
