/** Optional values, for links that may be absent and lookups that may fail. */
module Wrappers {

  datatype Option<+T> = None | Some(value: T)

  /** The zero or one elements held by an option, as a sequence. */
  function OptionToSeq<T>(o: Option<T>): (r: seq<T>)
    ensures o.None? ==> r == []
    ensures o.Some? ==> r == [o.value]
  {
    match o
    case None => []
    case Some(v) => [v]
  }
}

/**
 * Key-addressed storage of a half-edge graph: arcs (called edges here, as in the
 * library), faces and vertices, each held in a map from its key to its record.
 * Every link between entities is a key that is resolved through these maps.
 */
module Topology {
  import opened Wrappers

  datatype EdgeKey = EdgeKey(id: nat)
  datatype FaceKey = FaceKey(id: nat)
  datatype VertexKey = VertexKey(id: nat)

  /** A directed arc: its destination vertex, and its opposite arc, its successor
      around its face and its face, each of which may be absent. */
  datatype Edge = Edge(vertex: VertexKey, opposite: Option<EdgeKey>, next: Option<EdgeKey>, face: Option<FaceKey>)

  /** A face and its representative arc. */
  datatype Face = Face(edge: EdgeKey)

  /** A vertex and its representative outgoing arc, if any. */
  datatype Vertex = Vertex(edge: Option<EdgeKey>)

  datatype Storage = Storage(edges: map<EdgeKey, Edge>, faces: map<FaceKey, Face>, vertices: map<VertexKey, Vertex>)

  /** The successor of arc `e`: its `next` link if `e` is stored, otherwise nothing. */
  function NextOf(m: Storage, e: EdgeKey): (r: Option<EdgeKey>)
    ensures r.Some? ==> e in m.edges && m.edges[e].next == r
    ensures e in m.edges ==> r == m.edges[e].next
  {
    if e in m.edges then m.edges[e].next else None
  }

  /** The longest prefix of `s` whose elements are all in `keys`: what an iterator
      yields when it resolves each key into a view and stops at the first that fails. */
  function TakeWhileIn<T>(s: seq<T>, keys: set<T>): seq<T>
  {
    if s == [] || s[0] !in keys then [] else [s[0]] + TakeWhileIn(s[1..], keys)
  }

  /** `TakeWhileIn` yields the longest prefix of resolving elements: a prefix, all of
      whose elements are in `keys`, followed (if anything) by one that is not. */
  lemma {:induction false} TakeWhileInPrefix<T>(s: seq<T>, keys: set<T>)
    ensures TakeWhileIn(s, keys) <= s
    ensures forall i :: 0 <= i < |TakeWhileIn(s, keys)| ==> TakeWhileIn(s, keys)[i] in keys
    ensures |TakeWhileIn(s, keys)| < |s| ==> s[|TakeWhileIn(s, keys)|] !in keys
  {
    if s != [] && s[0] in keys {
      TakeWhileInPrefix(s[1..], keys);
      var r := TakeWhileIn(s, keys);
      forall i | 0 <= i < |r| ensures r[i] in keys {
        if i > 0 { assert r[i] == TakeWhileIn(s[1..], keys)[i - 1]; }
      }
    }
  }

  /** One step of `TakeWhileIn`. */
  lemma TakeWhileStep<T>(s: seq<T>, keys: set<T>)
    ensures s != [] && s[0] in keys ==> TakeWhileIn(s, keys) == [s[0]] + TakeWhileIn(s[1..], keys)
    ensures s == [] || s[0] !in keys ==> TakeWhileIn(s, keys) == []
  {
  }

  /** A sequence all of whose elements resolve is yielded whole. */
  lemma {:induction false} TakeWhileAll<T>(s: seq<T>, keys: set<T>)
    requires forall i :: 0 <= i < |s| ==> s[i] in keys
    ensures TakeWhileIn(s, keys) == s
  {
    if s != [] {
      TakeWhileAll(s[1..], keys);
    }
  }

  /** A sequence whose elements all resolve except possibly the last is yielded
      whole or without its last element. */
  lemma {:induction false} TakeWhileButLast<T>(s: seq<T>, keys: set<T>)
    requires s != []
    requires forall i :: 0 <= i < |s| - 1 ==> s[i] in keys
    ensures TakeWhileIn(s, keys) == if s[|s| - 1] in keys then s else s[..|s| - 1]
  {
    if |s| > 1 {
      TakeWhileButLast(s[1..], keys);
      assert s[1..][..|s| - 2] == s[1..|s| - 1];
      assert s[..|s| - 1] == [s[0]] + s[1..|s| - 1];
    }
  }

  /** No key occurs twice. */
  ghost predicate Distinct<T>(s: seq<T>) {
    forall i, j :: 0 <= i < j < |s| ==> s[i] != s[j]
  }

  /** The cyclic successor of a position below `k` wraps to 0 only after the last. */
  lemma SuccessorMod(a: int, k: int)
    requires 0 <= a < k
    ensures (a + 1) % k == if a + 1 == k then 0 else a + 1
  {
    if a + 1 == k {
      assert (a + 1) % k == (0 + 1 * k) % k;
    }
  }
}
