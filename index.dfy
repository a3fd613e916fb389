/**
 * Vertex indexers and the loops that turn a stream of polygons into an index
 * buffer and a vertex buffer (src/primitive/index.rs).
 *
 * An indexer maps each vertex, through a keying function, to an index. The
 * hashing indexer remembers every key it has seen; the caching indexer keeps
 * only a bounded list of recently used keys and issues a fresh index for a key
 * that has been evicted. Both keep a counter `n` of the indices issued so far,
 * and hand the vertex back exactly when its index is fresh, so that the caller
 * appends it to the vertex buffer at position `n`. The ghost field `Issued` is
 * the key of every index issued so far, in order.
 */
module Indexing {
  import opened Wrappers
  import opened Topology

  // ------------------------------------------------------- hashing indexer

  /** The hash map sends each key seen to the index issued for it, and every index
      issued so far belongs to exactly one key. */
  ghost predicate HashInv<K>(hash: map<K, nat>, n: nat, issued: seq<K>) {
    && n == |issued|
    && (forall k :: k in hash ==> hash[k] < |issued| && issued[hash[k]] == k)
    && (forall i :: 0 <= i < |issued| ==> issued[i] in hash && hash[issued[i]] == i)
  }

  /** The keys of a sequence, as a set. */
  ghost function KeySet<K>(s: seq<K>): set<K> {
    set k | k in s
  }

  /** A sequence without repetitions has as many distinct elements as positions. */
  lemma {:induction false} DistinctCard<K>(s: seq<K>)
    requires Distinct(s)
    ensures |KeySet(s)| == |s|
  {
    if s != [] {
      var init := s[..|s| - 1];
      assert Distinct(init);
      DistinctCard(init);
      assert KeySet(s) == KeySet(init) + {s[|s| - 1]};
      assert forall i :: 0 <= i < |init| ==> init[i] != s[|s| - 1];
    }
  }

  /**
   * The indices a hashing indexer has issued are exactly 0 .. n-1, each used by
   * one key, and `n` is the number of distinct keys seen.
   */
  lemma HashDense<K>(hash: map<K, nat>, n: nat, issued: seq<K>)
    requires HashInv(hash, n, issued)
    ensures forall i: nat :: i in hash.Values <==> i < n
    ensures Distinct(issued)
    ensures hash.Keys == KeySet(issued)
    ensures |hash| == n
  {
    forall v | v in hash.Values ensures v < n {
      var k :| k in hash && hash[k] == v;
    }
    forall i: nat | i < n ensures i in hash.Values {
      assert issued[i] in hash && hash[issued[i]] == i;
    }
    forall i, j | 0 <= i < j < |issued| ensures issued[i] != issued[j] {
      assert hash[issued[i]] == i && hash[issued[j]] == j;
    }
    assert hash.Keys == KeySet(issued);
    DistinctCard(issued);
    assert |hash.Keys| == |hash|;
  }

  /** Indexes vertices by remembering the index of every key it has seen. */
  class HashIndexer<K(==)> {
    var hash: map<K, nat>
    var n: nat
    /** The key of each index issued so far. */
    ghost var Issued: seq<K>

    ghost predicate Valid()
      reads this
    {
      HashInv(hash, n, Issued)
    }

    constructor ()
      ensures Valid() && hash == map[] && n == 0 && Issued == []
    {
      hash := map[];
      n := 0;
      Issued := [];
    }

    /**
     * The index of the key of `input`: the one issued before when the key has been
     * seen, with no vertex; otherwise the next index `n`, with the vertex.
     */
    method Index<V>(input: V, f: V -> K) returns (index: nat, vertex: Option<V>)
      requires Valid()
      modifies this
      ensures Valid()
      ensures index < |Issued| && Issued[index] == f(input)
      ensures vertex.Some? <==> f(input) !in old(Issued)
      ensures f(input) in old(hash) ==>
        index == old(hash)[f(input)] && vertex.None? && hash == old(hash) && n == old(n) && Issued == old(Issued)
      ensures f(input) !in old(hash) ==>
        && index == old(n) && vertex == Some(input)
        && hash == old(hash)[f(input) := old(n)] && n == old(n) + 1 && Issued == old(Issued) + [f(input)]
    {
      var key := f(input);
      if key in hash {
        index := hash[key];
        vertex := None;
      } else {
        assert forall i :: 0 <= i < |Issued| ==> Issued[i] != key;
        vertex := Some(input);
        index := n;
        hash := hash[key := n];
        n := n + 1;
        Issued := Issued + [key];
      }
    }
  }

  // ------------------------------------------------------- caching indexer

  /** No key appears twice in the cache. */
  ghost predicate KeysDistinct<K>(lru: seq<(K, nat)>) {
    forall i, j :: 0 <= i < j < |lru| ==> lru[i].0 != lru[j].0
  }

  /** Each cached entry pairs a key with the index issued for it. */
  ghost predicate EntriesIssued<K>(lru: seq<(K, nat)>, issued: seq<K>) {
    forall j :: 0 <= j < |lru| ==> lru[j].1 < |issued| && issued[lru[j].1] == lru[j].0
  }

  /** The cache holds at most `capacity` entries, which is at least one, with
      distinct keys, each paired with the index issued for it. */
  ghost predicate LruInv<K>(lru: seq<(K, nat)>, capacity: nat, n: nat, issued: seq<K>) {
    && 1 <= capacity
    && |lru| <= capacity
    && n == |issued|
    && KeysDistinct(lru)
    && EntriesIssued(lru, issued)
  }

  /** The position and index of the first cache entry with key `key`. */
  function Find<K(==)>(lru: seq<(K, nat)>, key: K): (r: Option<(nat, nat)>)
    ensures r.Some? ==> r.value.0 < |lru| && lru[r.value.0] == (key, r.value.1)
    ensures r.Some? ==> forall j :: 0 <= j < r.value.0 ==> lru[j].0 != key
    ensures r.None? ==> forall j :: 0 <= j < |lru| ==> lru[j].0 != key
  {
    if lru == [] then None
    else if lru[0].0 == key then Some((0, lru[0].1))
    else match Find(lru[1..], key)
      case None => None
      case Some(hit) => Some((hit.0 + 1, hit.1))
  }

  /** The cache with the entry at position `p` removed and pushed to the back. */
  function MoveToBack<E>(s: seq<E>, p: nat): (r: seq<E>)
    requires p < |s|
    ensures |r| == |s| && r[|s| - 1] == s[p]
    ensures forall j :: 0 <= j < p ==> r[j] == s[j]
    ensures forall j :: p <= j < |s| - 1 ==> r[j] == s[j + 1]
    ensures multiset(r) == multiset(s)
  {
    assert s == s[..p] + [s[p]] + s[p + 1..];
    s[..p] + s[p + 1..] + [s[p]]
  }

  /** Moving an entry to the back keeps the cache invariant. */
  lemma MoveToBackInv<K>(lru: seq<(K, nat)>, p: nat, issued: seq<K>)
    requires p < |lru| && KeysDistinct(lru) && EntriesIssued(lru, issued)
    ensures KeysDistinct(MoveToBack(lru, p)) && EntriesIssued(MoveToBack(lru, p), issued)
  {
    var r := MoveToBack(lru, p);
    // position of `r[j]` in `lru`
    var from := (j: int) => if j == |lru| - 1 then p else if j < p then j else j + 1;
    assert forall j :: 0 <= j < |r| ==> r[j] == lru[from(j)];
    forall i, j | 0 <= i < j < |r| ensures r[i].0 != r[j].0 {
      assert from(i) != from(j);
      assert r[i] == lru[from(i)] && r[j] == lru[from(j)];
    }
  }

  /** Indexes vertices through a bounded list of recently used keys, evicting the
      least recently used key when the list is full. */
  class LruIndexer<K(==)> {
    var lru: seq<(K, nat)>
    var capacity: nat
    var n: nat
    /** The key of each index issued so far. */
    ghost var Issued: seq<K>

    ghost predicate Valid()
      reads this
    {
      LruInv(lru, capacity, n, Issued)
    }

    /** A caching indexer with the default capacity of 16 entries. */
    constructor ()
      ensures Valid() && lru == [] && capacity == 16 && n == 0 && Issued == []
    {
      lru := [];
      capacity := 16;
      n := 0;
      Issued := [];
    }

    /** A caching indexer with room for `capacity` entries, and at least one. */
    constructor WithCapacity(capacity: nat)
      ensures Valid() && lru == [] && n == 0 && Issued == []
      ensures capacity == 0 ==> this.capacity == 1
      ensures capacity >= 1 ==> this.capacity == capacity
    {
      this.capacity := if capacity < 1 then 1 else capacity;
      lru := [];
      n := 0;
      Issued := [];
    }

    /**
     * The index of the key of `input`: on a cache hit, the cached index, with no
     * vertex, the entry moving to the back; on a miss, the next index `n`, with the
     * vertex, after evicting the front entry if the cache is full.
     */
    method Index<V>(input: V, f: V -> K) returns (index: nat, vertex: Option<V>)
      requires Valid()
      modifies this
      ensures Valid() && capacity == old(capacity)
      ensures index < |Issued| && Issued[index] == f(input)
      ensures var hit := Find(old(lru), f(input));
        hit.Some? ==>
          && index == hit.value.1 && vertex.None?
          && lru == MoveToBack(old(lru), hit.value.0) && n == old(n) && Issued == old(Issued)
      ensures Find(old(lru), f(input)).None? ==>
        && index == old(n) && vertex == Some(input) && n == old(n) + 1 && Issued == old(Issued) + [f(input)]
        && lru == (if |old(lru)| >= capacity then old(lru)[1..] else old(lru)) + [(f(input), old(n))]
    {
      var key := f(input);
      var entry := Find(lru, key);
      if entry.Some? {
        MoveToBackInv(lru, entry.value.0, Issued);
        lru := MoveToBack(lru, entry.value.0);
        index := entry.value.1;
        vertex := None;
      } else {
        vertex := Some(input);
        var m := n;
        n := n + 1;
        if |lru| >= capacity {
          lru := lru[1..];
        }
        lru := lru + [(key, m)];
        Issued := Issued + [key];
        index := m;
      }
    }
  }

  // ------------------------------------------------------------- indexers

  /** Either kind of indexer. */
  datatype Indexer<K(==)> = Hashing(hashing: HashIndexer<K>) | Caching(caching: LruIndexer<K>) {
    function Repr(): set<object> {
      match this
      case Hashing(h) => {h}
      case Caching(c) => {c}
    }

    ghost predicate Valid()
      reads Repr()
    {
      match this
      case Hashing(h) => h.Valid()
      case Caching(c) => c.Valid()
    }

    /** The key of each index issued so far. */
    ghost function Issued(): seq<K>
      reads Repr()
    {
      match this
      case Hashing(h) => h.Issued
      case Caching(c) => c.Issued
    }

    /** The number of indices issued so far. */
    function Count(): nat
      reads Repr()
    {
      match this
      case Hashing(h) => h.n
      case Caching(c) => c.n
    }
  }

  /** Indexes one vertex with whichever indexer is given. */
  method IndexWith<K(==), V>(ix: Indexer<K>, input: V, f: V -> K) returns (index: nat, vertex: Option<V>)
    requires ix.Valid()
    modifies ix.Repr()
    ensures ix.Valid() && ix.Count() == |ix.Issued()|
    ensures index < |ix.Issued()| && ix.Issued()[index] == f(input)
    ensures vertex.None? ==> ix.Issued() == old(ix.Issued())
    ensures vertex.Some? ==> vertex == Some(input) && ix.Issued() == old(ix.Issued()) + [f(input)]
    ensures vertex.Some? ==> index == old(ix.Count())
    ensures vertex.None? ==> index < old(ix.Count())
  {
    match ix
    case Hashing(h) => index, vertex := h.Index(input, f);
    case Caching(c) => index, vertex := c.Index(input, f);
  }

  // ------------------------------------------------------------- buffers

  /** The keys of a sequence of vertices. */
  function KeysOf<K, V>(vs: seq<V>, f: V -> K): seq<K> {
    if vs == [] then [] else KeysOf(vs[..|vs| - 1], f) + [f(vs[|vs| - 1])]
  }

  /** One more vertex adds its key. */
  lemma KeysOfSnoc<K, V>(vs: seq<V>, v: V, f: V -> K)
    ensures KeysOf(vs + [v], f) == KeysOf(vs, f) + [f(v)]
  {
    assert (vs + [v])[..|vs|] == vs;
  }

  /** There is one key per vertex, the key of the vertex at the same position. */
  lemma {:induction false} KeysOfAt<K, V>(vs: seq<V>, f: V -> K)
    ensures |KeysOf(vs, f)| == |vs|
    ensures forall j :: 0 <= j < |vs| ==> KeysOf(vs, f)[j] == f(vs[j])
  {
    if vs != [] {
      KeysOfAt(vs[..|vs| - 1], f);
    }
  }

  /** All vertices of the polygons, polygon after polygon. */
  function Flatten<V>(ps: seq<seq<V>>): seq<V> {
    if ps == [] then [] else Flatten(ps[..|ps| - 1]) + ps[|ps| - 1]
  }

  /**
   * The vertices of `polygon` whose indices in `indices` were fresh, in order,
   * when `base` indices had been issued before the first of them. An index is
   * fresh when it is the next one to be issued, that is `base` plus the number
   * of fresh vertices before it; any other index was issued earlier.
   */
  function FreshVertices<V>(polygon: seq<V>, indices: seq<nat>, base: nat): seq<V>
    decreases |indices|
  {
    if indices == [] then []
    else
      var prev := FreshVertices(polygon, indices[..|indices| - 1], base);
      if indices[|indices| - 1] == base + |prev| && |indices| <= |polygon|
      then prev + [polygon[|indices| - 1]]
      else prev
  }

  /** The input position whose vertex is fresh vertex `j`: its index is `base + j`. */
  lemma {:induction false} FreshSource<V>(polygon: seq<V>, indices: seq<nat>, base: nat, j: nat) returns (u: nat)
    requires j < |FreshVertices(polygon, indices, base)|
    ensures u < |indices| && u < |polygon|
    ensures FreshVertices(polygon, indices, base)[j] == polygon[u] && indices[u] == base + j
    decreases |indices|
  {
    var init := indices[..|indices| - 1];
    var prev := FreshVertices(polygon, init, base);
    var r := FreshVertices(polygon, indices, base);
    if j < |prev| {
      u := FreshSource(polygon, init, base, j);
      assert r[j] == prev[j] && indices[u] == init[u];
    } else {
      u := |indices| - 1;
      assert r == prev + [polygon[u]];
    }
  }

  /** Every fresh vertex is the input vertex that received index `base + j`, for
      its position `j` among the fresh vertices. */
  lemma {:induction false} FreshOrigin<V>(polygon: seq<V>, indices: seq<nat>, base: nat)
    ensures forall j :: 0 <= j < |FreshVertices(polygon, indices, base)| ==>
      exists u :: 0 <= u < |indices| && u < |polygon| && FreshVertices(polygon, indices, base)[j] == polygon[u] && indices[u] == base + j
  {
    var r := FreshVertices(polygon, indices, base);
    forall j | 0 <= j < |r|
      ensures exists u :: 0 <= u < |indices| && u < |polygon| && r[j] == polygon[u] && indices[u] == base + j
    {
      var u := FreshSource(polygon, indices, base, j);
    }
  }

  /** One more index: its vertex joins the fresh ones exactly when the index is
      the next to be issued. */
  lemma FreshSnoc<V>(polygon: seq<V>, indices: seq<nat>, index: nat, base: nat)
    requires |indices| < |polygon|
    ensures var prev := FreshVertices(polygon, indices, base);
      FreshVertices(polygon, indices + [index], base)
        == if index == base + |prev| then prev + [polygon[|indices|]] else prev
  {
    assert (indices + [index])[..|indices|] == indices;
  }

  /** Vertices past the indexed ones do not matter. */
  lemma {:induction false} FreshExtend<V>(p: seq<V>, q: seq<V>, a: seq<nat>, base: nat)
    requires |a| <= |p|
    ensures FreshVertices(p + q, a, base) == FreshVertices(p, a, base)
  {
    if a != [] {
      FreshExtend(p, q, a[..|a| - 1], base);
      assert (p + q)[|a| - 1] == p[|a| - 1];
    }
  }

  /** The fresh vertices of two runs laid end to end: those of the first, then
      those of the second counted from where the first left off. */
  lemma {:induction false} FreshConcat<V>(pa: seq<V>, a: seq<nat>, pb: seq<V>, b: seq<nat>, base: nat)
    requires |a| == |pa| && |b| <= |pb|
    ensures FreshVertices(pa + pb, a + b, base)
         == FreshVertices(pa, a, base) + FreshVertices(pb, b, base + |FreshVertices(pa, a, base)|)
    decreases |b|
  {
    var fa := FreshVertices(pa, a, base);
    if b == [] {
      assert a + b == a;
      FreshExtend(pa, pb, a, base);
    } else {
      var b' := b[..|b| - 1];
      FreshConcat(pa, a, pb, b', base);
      assert (a + b)[..|a + b| - 1] == a + b';
      assert (a + b)[|a + b| - 1] == b[|b| - 1];
      assert (pa + pb)[|a + b| - 1] == pb[|b| - 1];
    }
  }

  /**
   * No index of `indices` runs ahead of the indexer: each is either one issued
   * earlier or the next one to be issued, which is `base` plus the number of
   * fresh vertices before it.
   */
  ghost predicate InOrder<V>(polygon: seq<V>, indices: seq<nat>, base: nat)
    decreases |indices|
  {
    || indices == []
    || (&& InOrder(polygon, indices[..|indices| - 1], base)
        && indices[|indices| - 1] <= base + |FreshVertices(polygon, indices[..|indices| - 1], base)|)
  }

  /** One more index keeps the indices in order exactly when it does not run
      ahead of the fresh vertices so far. */
  lemma InOrderSnoc<V>(polygon: seq<V>, indices: seq<nat>, index: nat, base: nat)
    ensures InOrder(polygon, indices + [index], base)
        <==> InOrder(polygon, indices, base) && index <= base + |FreshVertices(polygon, indices, base)|
  {
    assert (indices + [index])[..|indices|] == indices;
  }

  /** Position by position: each index is at most `base` plus the number of fresh
      vertices before it. */
  lemma {:induction false} InOrderAt<V>(polygon: seq<V>, indices: seq<nat>, base: nat)
    requires InOrder(polygon, indices, base)
    ensures forall u :: 0 <= u < |indices| ==> indices[u] <= base + |FreshVertices(polygon, indices[..u], base)|
  {
    if indices != [] {
      var init := indices[..|indices| - 1];
      InOrderAt(polygon, init, base);
      forall u | 0 <= u < |indices| ensures indices[u] <= base + |FreshVertices(polygon, indices[..u], base)| {
        if u < |init| {
          assert indices[..u] == init[..u] && indices[u] == init[u];
        }
      }
    }
  }

  /** Later prefixes of the indices have at least as many fresh vertices. */
  lemma {:induction false} FreshLonger<V>(polygon: seq<V>, indices: seq<nat>, u: nat, w: nat, base: nat)
    requires u <= w <= |indices|
    ensures |FreshVertices(polygon, indices[..u], base)| <= |FreshVertices(polygon, indices[..w], base)|
    decreases w - u
  {
    if u < w {
      FreshLonger(polygon, indices, u, w - 1, base);
      assert indices[..w][..w - 1] == indices[..w - 1];
    }
  }

  /** Vertices past the indexed ones do not matter to the order either. */
  lemma {:induction false} InOrderExtend<V>(p: seq<V>, q: seq<V>, a: seq<nat>, base: nat)
    requires |a| <= |p|
    ensures InOrder(p + q, a, base) <==> InOrder(p, a, base)
  {
    if a != [] {
      InOrderExtend(p, q, a[..|a| - 1], base);
      FreshExtend(p, q, a[..|a| - 1], base);
    }
  }

  /** Two runs laid end to end are in order exactly when the first is, and the
      second is when counted from where the first left off. */
  lemma {:induction false} InOrderConcat<V>(pa: seq<V>, a: seq<nat>, pb: seq<V>, b: seq<nat>, base: nat)
    requires |a| == |pa| && |b| <= |pb|
    ensures InOrder(pa + pb, a + b, base)
        <==> InOrder(pa, a, base) && InOrder(pb, b, base + |FreshVertices(pa, a, base)|)
    decreases |b|
  {
    if b == [] {
      assert a + b == a;
      InOrderExtend(pa, pb, a, base);
    } else {
      var b' := b[..|b| - 1];
      InOrderConcat(pa, a, pb, b', base);
      FreshConcat(pa, a, pb, b', base);
      assert (a + b)[..|a + b| - 1] == a + b';
      assert (a + b)[|a + b| - 1] == b[|b| - 1];
    }
  }

  /** Each of `indices` is issued, for the key of the vertex at its position. */
  ghost predicate IndexedBy<K, V>(issued: seq<K>, indices: seq<nat>, polygon: seq<V>, f: V -> K) {
    && |indices| <= |polygon|
    && forall u :: 0 <= u < |indices| ==> indices[u] < |issued| && issued[indices[u]] == f(polygon[u])
  }

  /** A fresh index at position `u` is new to every earlier position: each of
      those got an index below it. */
  lemma FreshIsNew<V>(polygon: seq<V>, indices: seq<nat>, u: nat, w: nat, base: nat)
    requires w < u < |indices| <= |polygon|
    requires indices[w] <= base + |FreshVertices(polygon, indices[..w], base)|
    requires indices[u] == base + |FreshVertices(polygon, indices[..u], base)|
    ensures indices[w] < indices[u]
  {
    assert indices[..w + 1][..w] == indices[..w];
    FreshLonger(polygon, indices, w + 1, u, base);
  }

  /**
   * With an indexer that started empty and never issues two indices for one
   * key, in-order indices are the first-sight numbering: a vertex gets a fresh
   * index exactly when no earlier vertex has its key.
   */
  lemma FirstSight<K, V>(issued: seq<K>, indices: seq<nat>, polygon: seq<V>, f: V -> K)
    requires IndexedBy(issued, indices, polygon, f) && InOrder(polygon, indices, 0) && Distinct(issued)
    ensures forall u :: 0 <= u < |indices| ==>
      (indices[u] == |FreshVertices(polygon, indices[..u], 0)|
       <==> forall w :: 0 <= w < u ==> f(polygon[w]) != f(polygon[u]))
  {
    InOrderAt(polygon, indices, 0);
    forall u | 0 <= u < |indices|
      ensures indices[u] == |FreshVertices(polygon, indices[..u], 0)|
          <==> forall w :: 0 <= w < u ==> f(polygon[w]) != f(polygon[u])
    {
      if indices[u] == |FreshVertices(polygon, indices[..u], 0)| {
        forall w | 0 <= w < u ensures f(polygon[w]) != f(polygon[u]) {
          FreshIsNew(polygon, indices, u, w, 0);
          assert issued[indices[w]] != issued[indices[u]];
        }
      } else {
        // an earlier index: the fresh vertex that received it has the same key
        var w := FreshSource(polygon, indices[..u], 0, indices[u]);
        assert indices[w] == indices[u];
      }
    }
  }

  /** One more index, issued for the key of the next vertex, extends what is
      indexed. */
  lemma IndexedByExtend<K, V>(issued: seq<K>, indices: seq<nat>, polygon: seq<V>, f: V -> K, index: nat)
    requires IndexedBy(issued, indices, polygon, f) && |indices| < |polygon|
    requires index < |issued| && issued[index] == f(polygon[|indices|])
    ensures IndexedBy(issued, indices + [index], polygon, f)
  {
    var r := indices + [index];
    forall u | 0 <= u < |r| ensures r[u] < |issued| && issued[r[u]] == f(polygon[u]) {
      if u < |indices| {
        assert r[u] == indices[u];
      }
    }
  }

  /** Issuing more indices keeps every index already handed out valid. */
  lemma IndexedByGrow<K, V>(issued: seq<K>, issued': seq<K>, indices: seq<nat>, polygon: seq<V>, f: V -> K)
    requires IndexedBy(issued, indices, polygon, f) && issued <= issued'
    ensures IndexedBy(issued', indices, polygon, f)
  {
    forall u | 0 <= u < |indices| ensures issued'[indices[u]] == f(polygon[u]) {
      assert indices[u] < |issued|;
    }
  }

  /**
   * Indexes one vertex and appends it to the vertex buffer when its index is
   * fresh: the closure that the buffer loops map over each polygon. `start` is
   * what the indexer had issued before the buffer was begun.
   */
  method IndexOne<K(==), V>(ix: Indexer<K>, input: V, f: V -> K, vertices: seq<V>, ghost start: seq<K>)
    returns (index: nat, vertices': seq<V>)
    requires ix.Valid() && ix.Issued() == start + KeysOf(vertices, f)
    modifies ix.Repr()
    ensures ix.Valid() && old(ix.Issued()) <= ix.Issued() && ix.Issued() == start + KeysOf(vertices', f)
    ensures index < |ix.Issued()| && ix.Issued()[index] == f(input)
    ensures index <= old(ix.Count())
    ensures index == old(ix.Count()) ==> vertices' == vertices + [input] && ix.Count() == old(ix.Count()) + 1
    ensures index < old(ix.Count()) ==> vertices' == vertices && ix.Count() == old(ix.Count())
  {
    var vertex;
    index, vertex := IndexWith(ix, input, f);
    vertices' := vertices;
    if vertex.Some? {
      KeysOfSnoc(vertices, input, f);
      vertices' := vertices' + [input];
      assert ix.Issued() == (start + KeysOf(vertices, f)) + [f(input)] == start + KeysOf(vertices', f);
    }
  }

  /**
   * Indexes the next vertex of a polygon whose first vertices have the indices
   * `indices`: the index extends them, and the buffer goes on holding the fresh
   * vertices of the polygon so far.
   */
  method IndexNextVertex<K(==), V>(ix: Indexer<K>, polygon: seq<V>, f: V -> K, indices: seq<nat>, vertices: seq<V>,
                                   buffer: seq<V>, ghost start: seq<K>, ghost base: nat)
    returns (index: nat, buffer': seq<V>)
    requires ix.Valid() && ix.Issued() == start + KeysOf(buffer, f)
    requires |indices| < |polygon| && IndexedBy(ix.Issued(), indices, polygon, f)
    requires buffer == vertices + FreshVertices(polygon, indices, base)
    requires ix.Count() == base + |FreshVertices(polygon, indices, base)| && InOrder(polygon, indices, base)
    modifies ix.Repr()
    ensures ix.Valid() && old(ix.Issued()) <= ix.Issued() && ix.Issued() == start + KeysOf(buffer', f)
    ensures IndexedBy(ix.Issued(), indices + [index], polygon, f) && InOrder(polygon, indices + [index], base)
    ensures buffer' == vertices + FreshVertices(polygon, indices + [index], base)
    ensures ix.Count() == base + |FreshVertices(polygon, indices + [index], base)|
  {
    ghost var before := ix.Issued();
    index, buffer' := IndexOne(ix, polygon[|indices|], f, buffer, start);
    IndexedByGrow(before, ix.Issued(), indices, polygon, f);
    IndexedByExtend(ix.Issued(), indices, polygon, f, index);
    FreshSnoc(polygon, indices, index, base);
    InOrderSnoc(polygon, indices, index, base);
  }

  /**
   * Indexes the vertices of one polygon in order, appending each fresh vertex
   * to the vertex buffer.
   */
  method IndexPolygon<K(==), V>(ix: Indexer<K>, polygon: seq<V>, f: V -> K, vertices: seq<V>, ghost start: seq<K>)
    returns (indices: seq<nat>, vertices': seq<V>)
    requires ix.Valid() && ix.Issued() == start + KeysOf(vertices, f)
    modifies ix.Repr()
    ensures ix.Valid() && old(ix.Issued()) <= ix.Issued()
    ensures |indices| == |polygon| && IndexedBy(ix.Issued(), indices, polygon, f)
    ensures ix.Issued() == start + KeysOf(vertices', f)
    ensures vertices' == vertices + FreshVertices(polygon, indices, old(ix.Count()))
    ensures ix.Count() == old(ix.Count()) + |FreshVertices(polygon, indices, old(ix.Count()))|
    ensures InOrder(polygon, indices, old(ix.Count()))
  {
    ghost var base := ix.Count();
    indices := [];
    vertices' := vertices;
    var v := 0;
    while v < |polygon|
      invariant 0 <= v <= |polygon|
      invariant ix.Valid() && old(ix.Issued()) <= ix.Issued()
      invariant |indices| == v && IndexedBy(ix.Issued(), indices, polygon, f)
      invariant ix.Issued() == start + KeysOf(vertices', f)
      invariant vertices' == vertices + FreshVertices(polygon, indices, base)
      invariant ix.Count() == base + |FreshVertices(polygon, indices, base)|
      invariant InOrder(polygon, indices, base)
      decreases |polygon| - v
    {
      var index;
      index, vertices' := IndexNextVertex(ix, polygon, f, indices, vertices, vertices', start, base);
      indices := indices + [index];
      v := v + 1;
    }
  }

  /** The indices of two polygons, laid end to end, index their vertices laid end
      to end. */
  lemma IndexedByConcat<K, V>(issued: seq<K>, a: seq<nat>, pa: seq<V>, b: seq<nat>, pb: seq<V>, f: V -> K)
    requires IndexedBy(issued, a, pa, f) && |a| == |pa| && IndexedBy(issued, b, pb, f) && |b| == |pb|
    ensures IndexedBy(issued, a + b, pa + pb, f)
  {
    forall u | 0 <= u < |a + b| ensures (a + b)[u] < |issued| && issued[(a + b)[u]] == f((pa + pb)[u]) {
      if u >= |a| {
        assert (a + b)[u] == b[u - |a|] && (pa + pb)[u] == pb[u - |a|];
      }
    }
  }

  /** Flattening one more polygon appends its vertices. */
  lemma FlattenAppend<V>(ps: seq<seq<V>>, x: seq<V>)
    ensures Flatten(ps + [x]) == Flatten(ps) + x
  {
    assert (ps + [x])[..|ps|] == ps;
  }

  /** The last polygon extends the flattened polygons before it. */
  lemma FlattenSnoc<V>(ps: seq<seq<V>>, p: nat)
    requires p < |ps|
    ensures Flatten(ps[..p + 1]) == Flatten(ps[..p]) + ps[p]
  {
    assert ps[..p + 1][..p] == ps[..p];
  }

  /** Indexing one more polygon appends its fresh vertices to the buffer of the
      polygons before it, and keeps all the indices in order. */
  lemma BufferGrows<V>(flat: seq<V>, indices: seq<nat>, polygon: seq<V>, next: seq<nat>, base: nat, vertices: seq<V>, vertices': seq<V>)
    requires |indices| == |flat| && |next| <= |polygon|
    requires vertices == FreshVertices(flat, indices, base) && InOrder(flat, indices, base)
    requires vertices' == vertices + FreshVertices(polygon, next, base + |vertices|)
    requires InOrder(polygon, next, base + |vertices|)
    ensures vertices' == FreshVertices(flat + polygon, indices + next, base)
    ensures InOrder(flat + polygon, indices + next, base)
  {
    FreshConcat(flat, indices, polygon, next, base);
    InOrderConcat(flat, indices, polygon, next, base);
  }

  /**
   * Indexes one more polygon after the polygons `flat`, whose indices `done`
   * filled the buffer with their fresh vertices: the buffer then holds the
   * fresh vertices of all of them.
   */
  method IndexNextPolygon<K(==), V>(ix: Indexer<K>, polygon: seq<V>, f: V -> K, vertices: seq<V>,
                                    ghost flat: seq<V>, ghost done: seq<nat>, ghost base: nat, ghost start: seq<K>)
    returns (indices: seq<nat>, vertices': seq<V>)
    requires ix.Valid() && ix.Issued() == start + KeysOf(vertices, f)
    requires |done| == |flat| && ix.Count() == base + |vertices| && vertices == FreshVertices(flat, done, base)
    requires InOrder(flat, done, base)
    modifies ix.Repr()
    ensures ix.Valid() && old(ix.Issued()) <= ix.Issued()
    ensures |indices| == |polygon| && IndexedBy(ix.Issued(), indices, polygon, f)
    ensures ix.Issued() == start + KeysOf(vertices', f)
    ensures ix.Count() == base + |vertices'| && vertices' == FreshVertices(flat + polygon, done + indices, base)
    ensures InOrder(flat + polygon, done + indices, base)
  {
    ghost var count := ix.Count();
    indices, vertices' := IndexPolygon(ix, polygon, f, vertices, start);
    ghost var added := FreshVertices(polygon, indices, count);
    assert vertices' == vertices + added && ix.Count() == count + |added| && InOrder(polygon, indices, count);
    BufferGrows(flat, done, polygon, indices, base, vertices, vertices');
  }

  /** Each of the index polygons `indices` indexes the polygon at its position. */
  ghost predicate EachIndexedBy<K, V>(issued: seq<K>, indices: seq<seq<nat>>, polygons: seq<seq<V>>, f: V -> K) {
    && |indices| <= |polygons|
    && forall q :: 0 <= q < |indices| ==> |indices[q]| == |polygons[q]| && IndexedBy(issued, indices[q], polygons[q], f)
  }

  /** The index polygons stay valid as more keys are issued, and one more that
      indexes the next polygon extends them. */
  lemma EachIndexedByExtend<K, V>(before: seq<K>, issued: seq<K>, indices: seq<seq<nat>>, polygons: seq<seq<V>>, polygon: seq<nat>, f: V -> K)
    requires EachIndexedBy(before, indices, polygons, f) && before <= issued && |indices| < |polygons|
    requires |polygon| == |polygons[|indices|]| && IndexedBy(issued, polygon, polygons[|indices|], f)
    ensures EachIndexedBy(issued, indices + [polygon], polygons, f)
  {
    forall q | 0 <= q < |indices| ensures IndexedBy(issued, indices[q], polygons[q], f) {
      IndexedByGrow(before, issued, indices[q], polygons[q], f);
    }
    assert forall q :: 0 <= q < |indices| ==> (indices + [polygon])[q] == indices[q];
  }

  /** Each index polygon indexing its polygon makes the flattened indices index
      the flattened polygons. */
  lemma {:induction false} EachIndexedByFlatten<K, V>(issued: seq<K>, indices: seq<seq<nat>>, polygons: seq<seq<V>>, f: V -> K)
    requires |indices| == |polygons| && EachIndexedBy(issued, indices, polygons, f)
    ensures |Flatten(indices)| == |Flatten(polygons)| && IndexedBy(issued, Flatten(indices), Flatten(polygons), f)
  {
    if indices != [] {
      var n := |indices| - 1;
      assert forall q :: 0 <= q < n ==> indices[..n][q] == indices[q] && polygons[..n][q] == polygons[q];
      EachIndexedByFlatten(issued, indices[..n], polygons[..n], f);
      IndexedByConcat(issued, Flatten(indices[..n]), Flatten(polygons[..n]), indices[n], polygons[n], f);
    }
  }

  /**
   * A structured index buffer: one index polygon per input polygon, of the same
   * arity, each index issued for the key of the vertex it replaces, and the
   * vertex buffer holding, in order, the vertices whose indices were fresh.
   */
  method IndexVerticesWith<K(==), V>(polygons: seq<seq<V>>, ix: Indexer<K>, f: V -> K)
    returns (indices: seq<seq<nat>>, vertices: seq<V>)
    requires ix.Valid()
    modifies ix.Repr()
    ensures ix.Valid()
    ensures |indices| == |polygons|
    ensures forall p :: 0 <= p < |polygons| ==> |indices[p]| == |polygons[p]| && IndexedBy(ix.Issued(), indices[p], polygons[p], f)
    ensures ix.Issued() == old(ix.Issued()) + KeysOf(vertices, f)
    ensures ix.Count() == old(ix.Count()) + |vertices|
    ensures vertices == FreshVertices(Flatten(polygons), Flatten(indices), old(ix.Count()))
    ensures InOrder(Flatten(polygons), Flatten(indices), old(ix.Count()))
  {
    ghost var base := ix.Count();
    ghost var start := ix.Issued();
    ghost var flat: seq<V> := [];
    ghost var done: seq<nat> := [];
    indices := [];
    vertices := [];
    var p := 0;
    while p < |polygons|
      invariant 0 <= p <= |polygons| && |indices| == p
      invariant ix.Valid()
      invariant EachIndexedBy(ix.Issued(), indices, polygons, f)
      invariant ix.Issued() == start + KeysOf(vertices, f)
      invariant ix.Count() == base + |vertices|
      invariant flat == Flatten(polygons[..p]) && done == Flatten(indices) && |done| == |flat|
      invariant vertices == FreshVertices(flat, done, base) && InOrder(flat, done, base)
      decreases |polygons| - p
    {
      ghost var before := ix.Issued();
      var polygon;
      polygon, vertices := IndexNextPolygon(ix, polygons[p], f, vertices, flat, done, base, start);
      EachIndexedByExtend(before, ix.Issued(), indices, polygons, polygon, f);
      FlattenSnoc(polygons, p);
      FlattenAppend(indices, polygon);
      flat := flat + polygons[p];
      done := done + polygon;
      indices := indices + [polygon];
      p := p + 1;
    }
    assert polygons[..|polygons|] == polygons;
  }

  /**
   * A flat index buffer: one index per input vertex, polygon after polygon,
   * each issued for the key of its vertex, and the vertex buffer holding, in
   * order, the vertices whose indices were fresh.
   */
  method FlatIndexVerticesWith<K(==), V>(polygons: seq<seq<V>>, ix: Indexer<K>, f: V -> K)
    returns (indices: seq<nat>, vertices: seq<V>)
    requires ix.Valid()
    modifies ix.Repr()
    ensures ix.Valid()
    ensures |indices| == |Flatten(polygons)| && IndexedBy(ix.Issued(), indices, Flatten(polygons), f)
    ensures ix.Issued() == old(ix.Issued()) + KeysOf(vertices, f)
    ensures ix.Count() == old(ix.Count()) + |vertices|
    ensures vertices == FreshVertices(Flatten(polygons), indices, old(ix.Count()))
    ensures InOrder(Flatten(polygons), indices, old(ix.Count()))
  {
    ghost var base := ix.Count();
    ghost var start := ix.Issued();
    ghost var flat: seq<V> := [];
    indices := [];
    vertices := [];
    var p := 0;
    while p < |polygons|
      invariant 0 <= p <= |polygons|
      invariant ix.Valid()
      invariant |indices| == |Flatten(polygons[..p])| && IndexedBy(ix.Issued(), indices, Flatten(polygons[..p]), f)
      invariant ix.Issued() == start + KeysOf(vertices, f)
      invariant ix.Count() == base + |vertices|
      invariant flat == Flatten(polygons[..p])
      invariant vertices == FreshVertices(flat, indices, base) && InOrder(flat, indices, base)
      decreases |polygons| - p
    {
      ghost var before := ix.Issued();
      var polygon;
      polygon, vertices := IndexNextPolygon(ix, polygons[p], f, vertices, flat, indices, base, start);
      IndexedByGrow(before, ix.Issued(), indices, Flatten(polygons[..p]), f);
      IndexedByConcat(ix.Issued(), indices, Flatten(polygons[..p]), polygon, polygons[p], f);
      FlattenSnoc(polygons, p);
      flat := flat + polygons[p];
      indices := indices + polygon;
      p := p + 1;
    }
    assert polygons[..|polygons|] == polygons;
  }

  /**
   * With an indexer that has issued nothing yet, the vertex buffer is what the
   * indices point into: every index is a position of the buffer holding a vertex
   * with the key of the vertex the index replaced.
   */
  lemma BufferResolves<K, V>(vertices: seq<V>, indices: seq<nat>, polygon: seq<V>, f: V -> K)
    requires IndexedBy(KeysOf(vertices, f), indices, polygon, f)
    ensures forall u :: 0 <= u < |indices| ==> indices[u] < |vertices| && f(vertices[indices[u]]) == f(polygon[u])
  {
    KeysOfAt(vertices, f);
  }

  /** Structured buffers built with a fresh hashing indexer: every index points
      into the vertex buffer at a vertex with the same key, no key is stored
      twice, and the buffer holds exactly the input vertices whose indices were
      fresh, in input order. */
  method IndexVerticesHashing<K(==), V>(polygons: seq<seq<V>>, f: V -> K) returns (indices: seq<seq<nat>>, vertices: seq<V>)
    ensures |indices| == |polygons|
    ensures forall p :: 0 <= p < |polygons| ==> |indices[p]| == |polygons[p]|
    ensures forall p, u :: 0 <= p < |polygons| && 0 <= u < |polygons[p]| ==>
      indices[p][u] < |vertices| && f(vertices[indices[p][u]]) == f(polygons[p][u])
    ensures Distinct(KeysOf(vertices, f))
    ensures vertices == FreshVertices(Flatten(polygons), Flatten(indices), 0)
    ensures InOrder(Flatten(polygons), Flatten(indices), 0)
    ensures |Flatten(indices)| == |Flatten(polygons)|
    ensures forall u :: 0 <= u < |Flatten(polygons)| ==>
      (Flatten(indices)[u] == |FreshVertices(Flatten(polygons), Flatten(indices)[..u], 0)|
       <==> forall w :: 0 <= w < u ==> f(Flatten(polygons)[w]) != f(Flatten(polygons)[u]))
  {
    var h := new HashIndexer<K>();
    var ix := Hashing(h);
    indices, vertices := IndexVerticesWith(polygons, ix, f);
    assert ix.Issued() == KeysOf(vertices, f);
    forall p | 0 <= p < |polygons| ensures forall u :: 0 <= u < |polygons[p]| ==>
      indices[p][u] < |vertices| && f(vertices[indices[p][u]]) == f(polygons[p][u]) {
      BufferResolves(vertices, indices[p], polygons[p], f);
    }
    HashDense(h.hash, h.n, h.Issued);
    EachIndexedByFlatten(ix.Issued(), indices, polygons, f);
    FirstSight(ix.Issued(), Flatten(indices), Flatten(polygons), f);
  }

  /** Flat buffers built with a fresh caching indexer: one index per input vertex,
      each pointing into the vertex buffer at a vertex with the same key, and the
      buffer holding exactly the input vertices whose indices were fresh, in input
      order. */
  method FlatIndexVerticesCaching<K(==), V>(polygons: seq<seq<V>>, f: V -> K, capacity: nat) returns (indices: seq<nat>, vertices: seq<V>)
    ensures |indices| == |Flatten(polygons)|
    ensures forall u :: 0 <= u < |indices| ==> indices[u] < |vertices| && f(vertices[indices[u]]) == f(Flatten(polygons)[u])
    ensures vertices == FreshVertices(Flatten(polygons), indices, 0)
    ensures InOrder(Flatten(polygons), indices, 0)
  {
    var c := new LruIndexer<K>.WithCapacity(capacity);
    var ix := Caching(c);
    indices, vertices := FlatIndexVerticesWith(polygons, ix, f);
    BufferResolves(vertices, indices, Flatten(polygons), f);
  }
}
