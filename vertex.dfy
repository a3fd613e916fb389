/**
 * Views of vertices, and the circulators that walk the fan of arcs around a
 * vertex (src/graph/view/vertex.rs).
 *
 * The fan circulator keeps the source's two fields: the outgoing arc it will
 * step from next and a breadcrumb holding the starting outgoing arc, cleared
 * once the walk is about to return to it. Each step goes from the outgoing arc
 * to its opposite, which arrives at the vertex, yields that incoming arc, and
 * moves on to the incoming arc's successor, the next outgoing arc. The ghost
 * field `Remaining` is the sequence of incoming arcs still to be yielded.
 */
module VertexViews {
  import opened Wrappers
  import opened Topology

  // ---------------------------------------------------------------- views

  /** A vertex key paired with the storage it is resolved in. */
  datatype VertexView = VertexView(key: VertexKey, storage: Storage) {
    predicate Valid() { key in storage.vertices }

    /** Dereferencing a view: the record of its (present) key. */
    function Record(): Vertex
      requires Valid()
    {
      storage.vertices[key]
    }
  }

  /** A view is built only for a key that is present in storage. */
  function VertexFromKeyedStorage(key: VertexKey, storage: Storage): (r: Option<VertexView>)
    ensures r.Some? <==> key in storage.vertices
    ensures r.Some? ==> r.value.Valid() && r.value.key == key && r.value.storage == storage
  {
    if key in storage.vertices then Some(VertexView(key, storage)) else None
  }

  /** The outgoing arc of a vertex as an edge view: present exactly when the vertex
      has an outgoing arc and that arc is stored. */
  function ReachableOutgoingEdge(v: VertexView): (r: Option<EdgeKey>)
    requires v.Valid()
    ensures r.Some? <==> v.Record().edge.Some? && v.Record().edge.value in v.storage.edges
    ensures r.Some? ==> r == v.Record().edge
  {
    match v.Record().edge
    case None => None
    case Some(e) => if e in v.storage.edges then Some(e) else None
  }

  // ------------------------------------------------- the walk around a vertex

  /** The incoming arc reached from outgoing arc `o`: its opposite, when `o` is
      stored, has an opposite, and that opposite is stored. */
  function Incoming(m: Storage, o: EdgeKey): (r: Option<EdgeKey>)
    ensures r.Some? <==> o in m.edges && m.edges[o].opposite.Some? && m.edges[o].opposite.value in m.edges
    ensures r.Some? ==> r == m.edges[o].opposite
  {
    if o in m.edges && m.edges[o].opposite.Some? && m.edges[o].opposite.value in m.edges
    then m.edges[o].opposite else None
  }

  /**
   * `rest` is exactly what a fan circulator with breadcrumb `s` and outgoing arc
   * `o` yields: nothing if `o` leads to no stored incoming arc; otherwise that
   * incoming arc, followed, when its successor exists and is not `s`, by what
   * the circulator yields from that successor.
   */
  ghost predicate FanTail(m: Storage, s: EdgeKey, o: EdgeKey, rest: seq<EdgeKey>)
    decreases |rest|
  {
    match Incoming(m, o)
    case None => rest == []
    case Some(i) =>
      && rest != []
      && rest[0] == i
      && match NextOf(m, i)
         case None => |rest| == 1
         case Some(n) => if n == s then |rest| == 1 else FanTail(m, s, n, rest[1..])
  }

  /** `fan` is the whole circulation started from the optional outgoing arc `start`. */
  ghost predicate FanFrom(m: Storage, start: Option<EdgeKey>, fan: seq<EdgeKey>) {
    match start
    case None => fan == []
    case Some(o) => FanTail(m, o, o, fan)
  }

  /**
   * Consistent storage around one vertex: `outs` are distinct outgoing arcs and
   * `ins` the incoming arcs between them, the opposite of each outgoing arc being
   * the incoming arc at the same position, whose successor is the following
   * outgoing arc, closing from the last back to the first.
   */
  ghost predicate FanCycle(m: Storage, outs: seq<EdgeKey>, ins: seq<EdgeKey>) {
    && |outs| >= 1
    && |ins| == |outs|
    && Distinct(outs)
    && (forall j :: 0 <= j < |outs| ==> Incoming(m, outs[j]) == Some(ins[j]))
    && (forall j :: 0 <= j < |ins| ==> NextOf(m, ins[j]) == Some(outs[(j + 1) % |outs|]))
  }

  /** The walk is determined by the storage: two tails from the same state agree. */
  lemma {:induction false} FanTailUnique(m: Storage, s: EdgeKey, o: EdgeKey, p: seq<EdgeKey>, q: seq<EdgeKey>)
    requires FanTail(m, s, o, p) && FanTail(m, s, o, q)
    ensures p == q
    decreases |p|
  {
    match Incoming(m, o)
    case None =>
    case Some(i) =>
      match NextOf(m, i)
      case None =>
      case Some(n) =>
        if n != s {
          FanTailUnique(m, s, n, p[1..], q[1..]);
          assert p == [i] + p[1..] && q == [i] + q[1..];
        }
  }

  /** The outgoing arc `n` stops the walk: absent, the breadcrumb, or leading to no
      stored incoming arc. */
  ghost predicate FanStops(m: Storage, s: EdgeKey, n: Option<EdgeKey>) {
    n.None? || n == Some(s) || Incoming(m, n.value).None?
  }

  /**
   * Any chain of outgoing arcs `outs` and incoming arcs `ins` that alternates
   * opposite and successor links, never revisits the breadcrumb, and ends where
   * the walk stops, is what the circulator yields from `outs[0]`.
   */
  lemma {:induction false} FanChainIsTail(m: Storage, s: EdgeKey, outs: seq<EdgeKey>, ins: seq<EdgeKey>)
    requires |outs| == |ins| >= 1
    requires forall j :: 0 <= j < |outs| ==> Incoming(m, outs[j]) == Some(ins[j])
    requires forall j :: 0 <= j < |ins| - 1 ==> NextOf(m, ins[j]) == Some(outs[j + 1])
    requires forall j :: 1 <= j < |outs| ==> outs[j] != s
    requires FanStops(m, s, NextOf(m, ins[|ins| - 1]))
    ensures FanTail(m, s, outs[0], ins)
  {
    if |outs| > 1 {
      FanChainIsTail(m, s, outs[1..], ins[1..]);
      assert NextOf(m, ins[0]) == Some(outs[1]);
    } else {
      match NextOf(m, ins[0])
      case None =>
      case Some(n) =>
        if n != s {
          assert FanTail(m, s, n, []);
        }
    }
  }

  /** Positions one apart modulo `k` coincide only if the positions do. */
  lemma SuccessorModInjective(a: int, b: int, k: int)
    requires 0 <= a < k && 0 <= b < k
    requires (a + 1) % k == (b + 1) % k
    ensures a == b
  {
    SuccessorMod(a, k);
    SuccessorMod(b, k);
  }

  /** On a consistent fan of k outgoing arcs, the walk from the first one yields
      exactly the k incoming arcs, in order. */
  lemma FanCycleIsFan(m: Storage, outs: seq<EdgeKey>, ins: seq<EdgeKey>)
    requires FanCycle(m, outs, ins)
    ensures FanFrom(m, Some(outs[0]), ins)
    ensures |ins| == |outs|
  {
    var k := |outs|;
    forall j | 0 <= j < k - 1 ensures NextOf(m, ins[j]) == Some(outs[j + 1]) {
      SuccessorMod(j, k);
    }
    SuccessorMod(k - 1, k);
    FanChainIsTail(m, outs[0], outs, ins);
  }

  /** On a consistent fan the incoming arcs are distinct. */
  lemma FanCycleDistinct(m: Storage, outs: seq<EdgeKey>, ins: seq<EdgeKey>)
    requires FanCycle(m, outs, ins)
    ensures Distinct(ins)
  {
    var k := |outs|;
    forall a, b | 0 <= a < b < k ensures ins[a] != ins[b] {
      if ins[a] == ins[b] {
        assert outs[(a + 1) % k] == outs[(b + 1) % k];
        SuccessorModInjective(a, b, k);
      }
    }
  }

  /** Every incoming arc a walk yields is stored. */
  lemma {:induction false} FanStored(m: Storage, s: EdgeKey, o: EdgeKey, rest: seq<EdgeKey>)
    requires FanTail(m, s, o, rest)
    ensures forall j :: 0 <= j < |rest| ==> rest[j] in m.edges
    decreases |rest|
  {
    match Incoming(m, o)
    case None =>
    case Some(i) =>
      match NextOf(m, i)
      case None =>
      case Some(n) =>
        if n != s {
          FanStored(m, s, n, rest[1..]);
          forall j | 0 <= j < |rest| ensures rest[j] in m.edges {
            if j > 0 { assert rest[j] == rest[1..][j - 1]; }
          }
        }
  }

  // ---------------------------------------- what the face circulator yields

  /** The faces of the arcs, in order, skipping arcs that are not stored or have no
      face. */
  function IncidentFaces(m: Storage, arcs: seq<EdgeKey>): seq<FaceKey>
  {
    if arcs == [] then []
    else (if arcs[0] in m.edges then OptionToSeq(m.edges[arcs[0]].face) else []) + IncidentFaces(m, arcs[1..])
  }

  /** When every arc is stored and has a face, there is one face per arc, in order. */
  lemma {:induction false} IncidentFacesClosed(m: Storage, arcs: seq<EdgeKey>)
    requires forall j :: 0 <= j < |arcs| ==> arcs[j] in m.edges && m.edges[arcs[j]].face.Some?
    ensures |IncidentFaces(m, arcs)| == |arcs|
    ensures forall j :: 0 <= j < |arcs| ==> Some(IncidentFaces(m, arcs)[j]) == m.edges[arcs[j]].face
  {
    if arcs != [] {
      IncidentFacesClosed(m, arcs[1..]);
      var r := IncidentFaces(m, arcs);
      assert r == [m.edges[arcs[0]].face.value] + IncidentFaces(m, arcs[1..]);
      forall j | 0 <= j < |arcs| ensures Some(r[j]) == m.edges[arcs[j]].face {
        if j > 0 { assert arcs[j] == arcs[1..][j - 1]; }
      }
    }
  }

  /** Arcs without a face contribute nothing: a fan with no faces has none. */
  lemma {:induction false} IncidentFacesNone(m: Storage, arcs: seq<EdgeKey>)
    requires forall j :: 0 <= j < |arcs| ==> arcs[j] in m.edges && m.edges[arcs[j]].face.None?
    ensures IncidentFaces(m, arcs) == []
  {
    if arcs != [] {
      IncidentFacesNone(m, arcs[1..]);
    }
  }

  // ------------------------------------------------------------ circulators

  /** Walks the incoming arcs around a vertex. */
  class EdgeCirculator {
    const storage: Storage
    var outgoing: Option<EdgeKey>
    var breadcrumb: Option<EdgeKey>
    /** The incoming arcs still to be yielded. */
    ghost var Remaining: seq<EdgeKey>

    ghost predicate Valid()
      reads this
    {
      if outgoing.None? || breadcrumb.None? then Remaining == []
      else FanTail(storage, breadcrumb.value, outgoing.value, Remaining)
    }

    /** Starts at the optional outgoing arc `key`; `fan` is the walk from there. */
    constructor FromKeyedStorage(key: Option<EdgeKey>, storage: Storage, ghost fan: seq<EdgeKey>)
      requires FanFrom(storage, key, fan)
      ensures Valid() && this.storage == storage
      ensures outgoing == key && breadcrumb == key
      ensures Remaining == fan
    {
      this.storage := storage;
      outgoing := key;
      breadcrumb := key;
      Remaining := fan;
    }

    /** Starts at the vertex's outgoing arc; `fan` is the walk from there. */
    constructor FromVertex(vertex: VertexView, ghost fan: seq<EdgeKey>)
      requires vertex.Valid() && FanFrom(vertex.storage, vertex.Record().edge, fan)
      ensures Valid() && storage == vertex.storage
      ensures outgoing == vertex.Record().edge && breadcrumb == outgoing
      ensures Remaining == fan
    {
      storage := vertex.storage;
      outgoing := vertex.Record().edge;
      breadcrumb := vertex.Record().edge;
      Remaining := fan;
    }

    /** Yields the incoming arc opposite the current outgoing arc and advances to its
        successor, or clears the breadcrumb when the successor is the starting arc. */
    method Next() returns (r: Option<EdgeKey>)
      requires Valid()
      modifies this
      ensures Valid()
      ensures old(Remaining) == [] ==> r.None? && Remaining == []
      ensures old(Remaining) != [] ==> r == Some(old(Remaining)[0]) && Remaining == old(Remaining)[1..]
      ensures r.Some? ==> r.value in storage.edges
      ensures r.None? ==> outgoing == old(outgoing) && breadcrumb == old(breadcrumb)
      ensures r.Some? ==> old(outgoing).Some? && old(breadcrumb).Some? && r == Incoming(storage, old(outgoing).value)
      ensures r.Some? ==>
        (if NextOf(storage, r.value) == old(breadcrumb) then breadcrumb.None? && outgoing == old(outgoing)
         else breadcrumb == old(breadcrumb) && outgoing == NextOf(storage, r.value))
    {
      if outgoing.None? {
        return None;
      }
      var o := outgoing.value;
      if o !in storage.edges || storage.edges[o].opposite.None? {
        return None;
      }
      var incoming := storage.edges[o].opposite.value;
      if incoming !in storage.edges {
        return None;
      }
      var next := storage.edges[incoming].next;
      if breadcrumb.None? {
        return None;
      }
      if breadcrumb == next {
        breadcrumb := None;
      } else {
        outgoing := next;
      }
      Remaining := Remaining[1..];
      r := Some(incoming);
    }

    /** The iterator over edge views: the next incoming arc, if it resolves in
        storage, which it always does. */
    method NextView() returns (r: Option<EdgeKey>)
      requires Valid()
      modifies this
      ensures Valid()
      ensures old(Remaining) == [] ==> r.None? && Remaining == []
      ensures old(Remaining) != [] ==> r == Some(old(Remaining)[0]) && Remaining == old(Remaining)[1..]
    {
      r := Next();
      if r.Some? && r.value !in storage.edges {
        r := None;
      }
    }
  }

  /** Maps each incoming arc around a vertex to its face, skipping arcs that have none. */
  class FaceCirculator {
    const input: EdgeCirculator

    constructor (input: EdgeCirculator)
      ensures this.input == input
    {
      this.input := input;
    }

    ghost predicate Valid()
      reads this, input
    {
      input.Valid()
    }

    /** Advances past incoming arcs with no face and yields the first face found;
        nothing once the arcs run out. */
    method Next() returns (r: Option<FaceKey>)
      requires Valid()
      modifies input
      ensures Valid()
      ensures old(input.Remaining) == [] ==> input.Remaining == []
      ensures old(input.Remaining) != [] ==> |input.Remaining| < |old(input.Remaining)|
      ensures IncidentFaces(input.storage, old(input.Remaining)) == OptionToSeq(r) + IncidentFaces(input.storage, input.Remaining)
      ensures r.None? ==> input.Remaining == []
    {
      var m := input.storage;
      ghost var cur := input.Remaining;
      var e := input.Next();
      while e.Some?
        invariant input.Valid()
        invariant IncidentFaces(m, old(input.Remaining)) == IncidentFaces(m, cur)
        invariant e.Some? ==> cur != [] && cur[0] == e.value && cur[1..] == input.Remaining && e.value in m.edges
        invariant e.None? ==> input.Remaining == [] && cur == []
        decreases |input.Remaining| + if e.Some? then 1 else 0
      {
        if e.value in m.edges && m.edges[e.value].face.Some? {
          return m.edges[e.value].face;
        }
        cur := input.Remaining;
        e := input.Next();
      }
      return None;
    }

    /** The iterator over face views: the next face, if it resolves in storage. */
    method NextView() returns (r: Option<FaceKey>)
      requires Valid()
      modifies input
      ensures Valid()
      ensures old(input.Remaining) == [] ==> input.Remaining == []
      ensures old(input.Remaining) != [] ==> |input.Remaining| < |old(input.Remaining)|
      ensures r.None? ==> TakeWhileIn(IncidentFaces(input.storage, old(input.Remaining)), input.storage.faces.Keys) == []
      ensures r.Some? ==> TakeWhileIn(IncidentFaces(input.storage, old(input.Remaining)), input.storage.faces.Keys)
                          == [r.value] + TakeWhileIn(IncidentFaces(input.storage, input.Remaining), input.storage.faces.Keys)
    {
      ghost var d := IncidentFaces(input.storage, input.Remaining);
      r := Next();
      TakeWhileStep(d, input.storage.faces.Keys);
      if r.Some? && r.value !in input.storage.faces {
        r := None;
      }
    }

    /** Collects the face views the iterator yields, in order. */
    method Collect() returns (fs: seq<FaceKey>)
      requires Valid()
      modifies input
      ensures fs == TakeWhileIn(IncidentFaces(input.storage, old(input.Remaining)), input.storage.faces.Keys)
    {
      var m := input.storage;
      var keys := m.faces.Keys;
      ghost var all := TakeWhileIn(IncidentFaces(m, input.Remaining), keys);
      fs := [];
      var f := NextView();
      while f.Some?
        invariant Valid()
        invariant f.Some? ==> all == fs + [f.value] + TakeWhileIn(IncidentFaces(m, input.Remaining), keys)
        invariant f.None? ==> all == fs
        decreases |input.Remaining| + if f.Some? then 1 else 0
      {
        fs := fs + [f.value];
        f := NextView();
      }
    }
  }

  // ------------------------------------------------ consumers of circulation

  /** The keys of the incoming edge views around a vertex, in circulation order. */
  method IncomingEdges(vertex: VertexView, ghost fan: seq<EdgeKey>) returns (arcs: seq<EdgeKey>)
    requires vertex.Valid() && FanFrom(vertex.storage, vertex.Record().edge, fan)
    ensures arcs == fan
  {
    var c := new EdgeCirculator.FromVertex(vertex, fan);
    arcs := [];
    var e := c.NextView();
    while e.Some?
      invariant c.Valid() && c.storage == vertex.storage
      invariant e.Some? ==> fan == arcs + [e.value] + c.Remaining
      invariant e.None? ==> fan == arcs
      decreases |c.Remaining| + if e.Some? then 1 else 0
    {
      arcs := arcs + [e.value];
      e := c.NextView();
    }
  }

  /** A vertex without an outgoing arc has no incoming arcs. */
  method IncomingOfIsolated(vertex: VertexView, ghost fan: seq<EdgeKey>) returns (arcs: seq<EdgeKey>)
    requires vertex.Valid() && vertex.Record().edge.None? && FanFrom(vertex.storage, vertex.Record().edge, fan)
    ensures arcs == []
  {
    arcs := IncomingEdges(vertex, fan);
  }

  /** On a consistent fan of k outgoing arcs around the vertex, the incoming-arc
      iterator yields exactly k arcs. */
  method IncomingCount(vertex: VertexView, ghost outs: seq<EdgeKey>, ghost ins: seq<EdgeKey>) returns (count: nat)
    requires vertex.Valid() && FanCycle(vertex.storage, outs, ins) && vertex.Record().edge == Some(outs[0])
    ensures count == |outs|
  {
    FanCycleIsFan(vertex.storage, outs, ins);
    var arcs := IncomingEdges(vertex, ins);
    count := |arcs|;
  }

  /** The keys of the face views around a vertex, in circulation order. */
  method NeighboringFaces(vertex: VertexView, ghost fan: seq<EdgeKey>) returns (fs: seq<FaceKey>)
    requires vertex.Valid() && FanFrom(vertex.storage, vertex.Record().edge, fan)
    ensures fs == TakeWhileIn(IncidentFaces(vertex.storage, fan), vertex.storage.faces.Keys)
  {
    var c := new EdgeCirculator.FromVertex(vertex, fan);
    var fc := new FaceCirculator(c);
    fs := fc.Collect();
  }
}
