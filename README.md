# plexus views and vertex indexers, modelled in Dafny

This project models three pieces of the plexus half-edge mesh library.

- **Face views and their circulators** (`src/graph/view/face.rs`). A face view
  exists only for a key present in storage. The edge circulator walks the `next`
  links from the face's representative arc. Its breadcrumb is cleared when the
  walk comes back to the start. The vertex circulator maps each arc to its
  destination vertex. The face circulator maps each arc to the face of its
  opposite arc and skips arcs that have none. Built on these are `arity`, the
  region view's `arity`, `reachable_vertices`, `reachable_mutuals` (a fold of set
  intersections) and the face key topology.
- **Vertex views and their circulators** (`src/graph/view/vertex.rs`). The edge
  circulator walks the fan of a vertex. Each step goes from the outgoing arc to
  its `opposite` (an incoming arc), yields that arc, and moves on to its `next`
  (the next outgoing arc). It stops by the same breadcrumb rule. The face
  circulator yields each incoming arc's own face and skips arcs with none.
- **Vertex indexers** (`src/primitive/index.rs`). `HashIndexer` is a map plus a
  counter that hands out dense fresh indices. `LruIndexer` is a bounded list of
  recently used keys with front eviction. `index_vertices_with` and
  `flat_index_vertices_with` are the loops that fill index and vertex buffers.

Files:

- `topology.dfy` holds `Wrappers.Option` and the module `Topology`. That module
  has the key types, the arc, face and vertex records, and `Storage`, which is
  three maps. It also has `TakeWhileIn`: what an iterator yields when it turns
  keys into views and stops at the first key that does not resolve.
- `face.dfy` (module `FaceViews`) and `vertex.dfy` (module `VertexViews`) hold
  the views and circulators. Each edge circulator is a `class` with the source's
  own fields (`edge` or `outgoing`, and `breadcrumb`). Each edge circulator also
  carries a ghost `Remaining`, the keys it will still yield. `Valid()` ties the
  fields to `Remaining` through a recursive walk predicate: `FaceTail` for faces,
  `FanTail` for vertex fans. An edge circulator's constructor takes that walk as
  a ghost witness. The vertex and face circulators, as in the source, hold only
  an edge circulator as `input`; they reach its `Remaining` through it, and their
  constructors take that edge circulator. Lemmas show the witness is determined by storage (`FaceTailUnique`,
  `FanTailUnique`). They also show it is the full cycle on consistent storage
  (`CycleIsWalk`, `FanCycleIsFan`).
- `index.dfy` (module `Indexing`) holds the two indexers as classes. Each keeps a
  ghost `Issued` sequence: the key of every index issued so far. The
  `Indexer<K>` datatype stands for the source's `Indexer` trait parameter. The
  index-buffer loops are methods proved against the functions `KeysOf`,
  `Flatten` and `FreshVertices` and the predicate `IndexedBy`. `FreshVertices`
  picks, in input order, the input vertices whose index was the next one to be
  issued; the vertex buffer is proved equal to it. The predicate `InOrder` says
  that no index runs ahead of the indexer: each is either one already issued or
  the next one. With a hashing indexer, an index is fresh exactly when no earlier
  input vertex has the same key (`FirstSight`), so the index and vertex buffers
  are fully determined by the input.
- `scenarios.dfy` (module `Scenarios`) holds small symbolic meshes in place of
  the library's generated test meshes. The main one is two triangles glued along
  all three arcs, the smallest closed triangle mesh. The module also has concrete
  indexer runs.

"Consistent storage" is the library's name for storage whose links close up. In
the model it is the predicate `FaceCycle` (the `next` links around a face form a
cycle of distinct stored arcs). For a vertex it is `FanCycle` (`opposite`
followed by `next` leads round the fan back to the first outgoing arc). Without
these predicates, the contracts say what prefix is yielded before the
circulation stops.

## Model

| member | source | states |
|---|---|---|
| Topology.NextOf | src/graph/view/face.rs:871-876 | The successor of an arc is its stored `next` link. It is absent when the arc is not stored. |
| Topology.TakeWhileInPrefix | src/graph/view/face.rs:934-937 | What a key-to-view iterator yields is a prefix of the keys. Every yielded key resolves. The first key left over does not resolve. |
| Topology.TakeWhileAll | src/graph/view/face.rs:934-937 | When every key resolves, the iterator yields all of them. |
| Topology.TakeWhileButLast | src/graph/view/face.rs:934-937 | When every key but the last resolves, the iterator yields all of them or all but the last. |
| FaceViews.FaceFromKeyedStorage | src/graph/view/face.rs:122-128 | A face view is built if and only if its key is in face storage. It then carries that key and storage. |
| FaceViews.RegionFromKeyedStorage | src/graph/view/face.rs:636-654 | A region view is built if and only if its arc is stored. It records that arc's face. |
| FaceViews.RegionFace | src/graph/view/face.rs:708-726 | A region has a face view exactly when it records a face. That view is valid, has the recorded key and uses the same storage. |
| FaceViews.IntoRegion | src/graph/view/face.rs:216-224 | The region of a face is anchored at the face's representative arc and records that arc's face. It is the region built from that arc's key. |
| FaceViews.FaceTailUnique | src/graph/view/face.rs:869-887 | The arcs an edge circulator yields from a given state are determined by storage. |
| FaceViews.ChainIsTail | src/graph/view/face.rs:869-887 | A `next` chain that avoids the start and ends at a missing link or back at the start is exactly what the circulator yields. |
| FaceViews.CycleIsWalk | src/graph/view/face.rs:869-905 | On a `next` cycle through the representative arc, the circulator yields exactly the cycle, in `next` order, starting with the representative. |
| FaceViews.BrokenChainIsWalk | src/graph/view/face.rs:871-883 | When an arc's `next` is missing, the circulator yields the chain up to and including that arc, then stops. |
| FaceViews.TailStored | src/graph/view/face.rs:934-937 | Every yielded arc but the last is stored. The edge views are all the arcs, or all but the last. |
| FaceViews.CycleStored | src/graph/view/face.rs:934-937 | On a consistent cycle, every arc yields an edge view. |
| FaceViews.DestinationsAt | src/graph/view/face.rs:796-800 | The vertex circulator yields one destination per stored arc, in order, each the `vertex` of its arc. |
| FaceViews.CycleVertexKeys | src/graph/view/face.rs:796-826 | Around a consistent face with stored destinations, the vertex views are the destination of every arc of the cycle, in order. |
| FaceViews.OppositeFace | src/graph/view/face.rs:988-992 | The face across an arc exists exactly when the opposite arc exists, is stored and has a face. It is that arc's face. |
| FaceViews.NeighborFaces | src/graph/view/face.rs:977-997 | The face circulator yields at most one face per arc the edge circulator yields. |
| FaceViews.NeighborFacesClosed | src/graph/view/face.rs:977-997 | When every arc has a face across it, the face circulator yields exactly one face per arc, in order. |
| FaceViews.EdgeCirculator.Next | src/graph/view/face.rs:869-887 | Next yields the next key of the walk, or nothing once the walk is exhausted, and then stays exhausted. On a yield it returns the current arc, and then it either clears the breadcrumb (when the successor is the start) or moves to the successor. Otherwise the state is unchanged. |
| FaceViews.EdgeCirculator.NextView | src/graph/view/face.rs:934-937 | The iterator yields the next arc only when it is stored, and otherwise ends. |
| FaceViews.EdgeCirculator.FromFace | src/graph/view/face.rs:896-905 | The circulator starts with both its arc and its breadcrumb at the face's representative arc. |
| FaceViews.EdgeCirculator.FromRegion | src/graph/view/face.rs:914-922 | The circulator starts with both its arc and its breadcrumb at the region's arc. |
| FaceViews.VertexCirculator.constructor | src/graph/view/face.rs:809-811 | The vertex circulator wraps the given edge circulator. |
| FaceViews.VertexCirculator.Next | src/graph/view/face.rs:796-800 | Each step yields the destination of the next stored arc, or nothing, which ends the stream. |
| FaceViews.VertexCirculator.NextView | src/graph/view/face.rs:823-826 | The vertex views are the resolving prefix of the destinations, one per step. |
| FaceViews.FaceCirculator.constructor | src/graph/view/face.rs:1006-1008 | The face circulator wraps the given edge circulator. |
| FaceViews.FaceCirculator.Next | src/graph/view/face.rs:977-997 | The loop skips arcs with no face across them and returns the first face it finds. It returns nothing when the arcs run out or an arc is not stored. |
| FaceViews.FaceCirculator.NextView | src/graph/view/face.rs:1018-1021 | The face views are the resolving prefix of the neighbouring faces, one per step. |
| FaceViews.ReachableArity | src/graph/view/face.rs:182-196 | The reachable arity is the number of edge views the circulation yields. |
| FaceViews.Arity | src/graph/view/face.rs:238-240 | On consistent storage, the arity is the length of the `next` cycle. |
| FaceViews.RegionArity | src/graph/view/face.rs:675-681 | On consistent storage, the region's arity is the length of the `next` cycle through its arc. |
| FaceViews.ToKeyTopology | src/graph/view/face.rs:598-613 | The key topology holds the face key and the keys of the edge views, in circulation order. |
| FaceViews.ReachableVertices | src/graph/view/face.rs:265-269 | The face's vertex keys are the resolving prefix of the destinations of its arcs. |
| FaceViews.RegionVertices | src/graph/view/face.rs:697-699 | The region's vertex keys are the resolving prefix of the destinations of the arcs along its walk. |
| FaceViews.ReachableNeighboringFaces | src/graph/view/face.rs:188-192 | The neighbouring face keys are the resolving prefix of the faces across the arcs, faceless arcs skipped. |
| FaceViews.MutualsIff | src/graph/view/face.rs:250-263 | A key is in the folded intersection if and only if it is in the initial set and in every set folded in. |
| FaceViews.Elements | src/graph/view/face.rs:252-256 | Collecting keys into a set keeps exactly the keys of the sequence. |
| FaceViews.VertexKeySets | src/graph/view/face.rs:251-257 | There is one vertex key set per neighbouring face, in order, each that face's collected vertex keys. |
| FaceViews.IntersectVertexKeys | src/graph/view/face.rs:258-262 | The fold intersects the accumulator with the vertex keys of each face in turn. |
| FaceViews.ReachableMutuals | src/graph/view/face.rs:250-263 | A key is mutual if and only if it is one of the face's vertex keys and also one of every neighbouring face's vertex keys. |
| VertexViews.VertexFromKeyedStorage | src/graph/view/vertex.rs:86-91 | A vertex view is built if and only if its key is in vertex storage. |
| VertexViews.ReachableOutgoingEdge | src/graph/view/vertex.rs:128-133 | The outgoing edge view exists exactly when the vertex has an arc and that arc is stored. It is that arc. |
| VertexViews.Incoming | src/graph/view/vertex.rs:422-426 | The incoming arc reached from an outgoing arc exists if and only if the outgoing arc is stored, has an opposite, and the opposite is stored. It is that opposite. |
| VertexViews.FanTailUnique | src/graph/view/vertex.rs:421-443 | The arcs a fan circulator yields from a given state are determined by storage. |
| VertexViews.FanChainIsTail | src/graph/view/vertex.rs:421-443 | A chain of outgoing and incoming arcs that avoids the start and then stops or closes is exactly what the circulator yields. |
| VertexViews.FanCycleIsFan | src/graph/view/vertex.rs:432-442 | On a consistent fan of k outgoing arcs, the circulator yields exactly the k incoming arcs, in order. |
| VertexViews.FanCycleDistinct | src/graph/view/vertex.rs:432-442 | On a consistent fan, the incoming arcs yielded are distinct. |
| VertexViews.FanStored | src/graph/view/vertex.rs:421-475 | Every incoming arc the circulator yields is stored, so each yields an edge view. |
| VertexViews.IncidentFacesClosed | src/graph/view/vertex.rs:514-529 | When every incoming arc has a face, the face circulator yields each arc's face, in order. |
| VertexViews.IncidentFacesNone | src/graph/view/vertex.rs:514-529 | When no incoming arc has a face, the face circulator yields nothing. |
| VertexViews.EdgeCirculator.FromKeyedStorage | src/graph/view/vertex.rs:412-419 | The circulator starts with both its outgoing arc and its breadcrumb set to the given key. |
| VertexViews.EdgeCirculator.FromVertex | src/graph/view/vertex.rs:452-461 | The circulator starts at the vertex's outgoing arc. |
| VertexViews.EdgeCirculator.Next | src/graph/view/vertex.rs:421-443 | Next yields the opposite of the current outgoing arc. It then clears the breadcrumb (when the next outgoing arc is the start) or moves to that next outgoing arc. When the outgoing arc is absent, not stored or has no opposite, it yields nothing and the state is unchanged. Once exhausted, it stays exhausted. |
| VertexViews.EdgeCirculator.NextView | src/graph/view/vertex.rs:472-475 | Every yielded incoming arc resolves to an edge view. |
| VertexViews.FaceCirculator.constructor | src/graph/view/vertex.rs:538-540 | The face circulator wraps the given fan circulator. |
| VertexViews.FaceCirculator.Next | src/graph/view/vertex.rs:514-529 | The loop skips incoming arcs with no face and returns the first face. It returns nothing when the fan is exhausted. |
| VertexViews.FaceCirculator.NextView | src/graph/view/vertex.rs:551-554 | The face views are the resolving prefix of the incident faces, one per step. |
| VertexViews.FaceCirculator.Collect | src/graph/view/vertex.rs:543-555 | Draining the face iterator gives the resolving prefix of the incident faces. |
| VertexViews.IncomingEdges | src/graph/view/vertex.rs:161-165 | The incoming arcs of a vertex are exactly its fan. |
| VertexViews.IncomingOfIsolated | src/graph/view/vertex.rs:412-423 | A vertex with no outgoing arc yields no incoming arcs. |
| VertexViews.IncomingCount | src/graph/view/vertex.rs:585-595 | On a consistent fan, a vertex has as many incoming arcs as outgoing ones. |
| VertexViews.NeighboringFaces | src/graph/view/vertex.rs:185-189 | The neighbouring face keys are the resolving prefix of the fan's incident faces. |
| Indexing.HashDense | src/primitive/index.rs:96-104 | The map's values are exactly 0 to n-1. The issued keys are distinct and form the map's key set. The map holds n entries. |
| Indexing.HashIndexer.constructor | src/primitive/index.rs:68-74 | A new hashing indexer has an empty map and a zero counter. |
| Indexing.HashIndexer.Index | src/primitive/index.rs:92-105 | An unseen key gets index n, returns the vertex, and grows n by one. A seen key gets its first index back, returns nothing, and leaves the map and n unchanged. |
| Indexing.Find | src/primitive/index.rs:167-173 | The search finds the position and index of the first cache entry with the key, or reports that none has it. |
| Indexing.MoveToBack | src/primitive/index.rs:197-199 | Removing an entry and pushing it back moves it to the end. The others keep their order and the entries are a permutation. |
| Indexing.MoveToBackInv | src/primitive/index.rs:197-199 | Moving an entry to the back keeps the cache keys distinct and each entry tied to its issued index. |
| Indexing.LruIndexer.constructor | src/primitive/index.rs:149-151 | The default cache capacity is 16. |
| Indexing.LruIndexer.WithCapacity | src/primitive/index.rs:157-165 | The capacity is clamped to at least one. |
| Indexing.LruIndexer.Index | src/primitive/index.rs:191-213 | On a hit, the entry moves to the back and its index is returned with nothing, and n and the issued keys are unchanged. On a miss, index n is returned with the vertex, n grows by one, the front entry is evicted when full, and the new entry is pushed. The cache never exceeds its capacity. |
| Indexing.IndexWith | src/primitive/index.rs:20-26 | Either indexer returns an index issued for the vertex's key. The vertex comes back exactly when a fresh index is issued, and that index is the count of indices issued before; an index issued earlier is below that count. |
| Indexing.KeysOfAt | src/primitive/index.rs:284-287 | The keys of a vertex buffer are pointwise the keys of its vertices. |
| Indexing.FreshOrigin | src/primitive/index.rs:286-291 | Each buffered vertex is the input vertex at some position whose index is the base count plus the vertex's position in the buffer. |
| Indexing.FreshSnoc | src/primitive/index.rs:288-291 | One more index adds the next input vertex to the fresh vertices exactly when it is the next index to be issued. |
| Indexing.FreshSource | src/primitive/index.rs:286-291 | The buffered vertex at position j is the input vertex at a position whose index is the base count plus j. |
| Indexing.InOrderSnoc | src/primitive/index.rs:288-291 | One more index keeps a run in order exactly when the run was in order and the index is at most the next one to be issued. |
| Indexing.InOrderAt | src/primitive/index.rs:288-291 | In an in-order run, every index is at most the base count plus the number of fresh indices before it. |
| Indexing.InOrderConcat | src/primitive/index.rs:367-374 | Two index runs laid end to end are in order exactly when the first is and the second is, counted on from the first's count. |
| Indexing.FreshIsNew | src/primitive/index.rs:288-291 | A fresh index is greater than every in-order index before it. |
| Indexing.FirstSight | src/primitive/index.rs:96-105 | With distinct issued keys and an in-order run from zero, an index is fresh exactly when no earlier input vertex has the same key. |
| Indexing.FreshConcat | src/primitive/index.rs:367-374 | The fresh vertices of two polygons laid end to end are those of the first followed by those of the second, counted on from the first's count. |
| Indexing.IndexOne | src/primitive/index.rs:288-291 | Indexing one vertex returns an index issued for its key. A fresh index equals the previous count, and the input vertex itself is pushed onto the buffer. An earlier index leaves the buffer and the count unchanged. |
| Indexing.IndexNextVertex | src/primitive/index.rs:287-292 | After one more vertex of a polygon, its index extends the faithful index polygon and stays in order, and the buffer holds exactly the fresh vertices of the polygon so far. |
| Indexing.IndexedByExtend | src/primitive/index.rs:284-290 | Appending an index issued for the next vertex keeps the index polygon faithful to its input polygon. |
| Indexing.IndexedByGrow | src/primitive/index.rs:284-290 | An index polygon remains faithful as the indexer issues more indices. |
| Indexing.IndexPolygon | src/primitive/index.rs:284-290 | The polygon's vertices are mapped, in order, to issued indices of their keys. Exactly the input vertices whose indices were fresh are appended to the buffer, in input order, and the count grows by their number. No index runs ahead of the count. |
| Indexing.BufferGrows | src/primitive/index.rs:286-294 | Appending the fresh vertices of one more polygon to a buffer of fresh vertices gives the fresh vertices of all the polygons, and in-order index runs stay in order when laid end to end. |
| Indexing.IndexNextPolygon | src/primitive/index.rs:286-294 | After one more polygon, the buffer holds exactly the fresh input vertices of all the polygons indexed so far, and the indices so far are in order. |
| Indexing.EachIndexedByExtend | src/primitive/index.rs:286-294 | Earlier index polygons stay faithful as more indices are issued, and a faithful index polygon for the next input polygon extends them. |
| Indexing.IndexedByConcat | src/primitive/index.rs:367-374 | Faithful index runs concatenate. |
| Indexing.FlattenSnoc | src/primitive/index.rs:367-374 | Flattening one more polygon appends its vertices. |
| Indexing.EachIndexedByFlatten | src/primitive/index.rs:286-294 | Flattening faithful index polygons gives a faithful flat index run over the flattened input. |
| Indexing.IndexVerticesWith | src/primitive/index.rs:275-296 | There is one index polygon per input polygon, of the same arity. Each index was issued for its vertex's key. The vertex buffer is exactly the input vertices whose indices were fresh, in input order, one per index issued. No index runs ahead of the indexer. |
| Indexing.FlatIndexVerticesWith | src/primitive/index.rs:360-378 | There is one index per input vertex, in input order, each issued for its vertex's key. The vertex buffer is exactly the input vertices whose indices were fresh, in input order, one per index issued. No index runs ahead of the indexer. |
| Indexing.BufferResolves | src/primitive/index.rs:284-296 | With a fresh indexer, every index is a position in the vertex buffer, and the vertex there has the key of the vertex it replaced. |
| Indexing.IndexVerticesHashing | src/primitive/index.rs:284-296 | With a fresh hashing indexer, every index resolves into the vertex buffer to a vertex with the same key, and no key is stored twice. The buffer is exactly the fresh input vertices in input order, and no index runs ahead of the indexer. A vertex gets a fresh index exactly when no earlier input vertex has its key, so both buffers are determined by the input. |
| Indexing.FlatIndexVerticesCaching | src/primitive/index.rs:360-378 | With a fresh caching indexer, every flat index resolves into the vertex buffer to a vertex with the same key. The buffer is exactly the fresh input vertices in input order, and no index runs ahead of the indexer. |
| Scenarios.FaceAIsCycle | src/graph/view/face.rs:1055-1064 | The first triangle of the fixture is a consistent `next` cycle. |
| Scenarios.TriangleArity | src/graph/view/face.rs:1055-1064 | A triangle has three edges. |
| Scenarios.TriangleNeighbors | src/graph/view/face.rs:1066-1075 | On the closed double triangle, a face has three neighbouring faces, all of them the other triangle. |
| Scenarios.TriangleVertices | src/graph/view/face.rs:265-269 | The vertices of the first triangle are the destinations of its arcs, in order. |
| Scenarios.BVertices | src/graph/view/face.rs:265-269 | The vertices of the second triangle follow its own `next` order. |
| Scenarios.TriangleMutuals | src/graph/view/face.rs:250-263 | On the double triangle, the mutual vertex keys are all three vertices. |
| Scenarios.SharedWithB | src/graph/view/face.rs:250-263 | From the neighbour and vertex sets of the two faces, the mutual vertex keys are the three vertices. |
| Scenarios.CycleStoredAll | src/graph/view/face.rs:934-937 | Every arc of the first triangle is stored. |
| Scenarios.WalksOfAB | src/graph/view/face.rs:869-887 | The recorded walks are the circulations of both faces. |
| Scenarios.NeighborsOfA | src/graph/view/face.rs:977-997 | The faces across the first triangle's arcs are three times the second triangle. |
| Scenarios.KeysOfA | src/graph/view/face.rs:265-269 | The first triangle's vertex keys are its three vertices. |
| Scenarios.KeysOfB | src/graph/view/face.rs:265-269 | The second triangle's vertex keys are the same three vertices. |
| Scenarios.BWalk | src/graph/view/face.rs:869-887 | The second triangle is a consistent cycle, and it is what its circulator walks. |
| Scenarios.FanOfV0 | src/graph/view/vertex.rs:421-443 | The fan of the first vertex is a consistent fan of two outgoing arcs. |
| Scenarios.IncomingAtV0 | src/graph/view/vertex.rs:585-595 | On the double triangle, a vertex has two incoming arcs. |
| Scenarios.FacesAtV0 | src/graph/view/vertex.rs:514-529 | The faces around the first vertex are the faces of its incoming arcs, in fan order. |
| Scenarios.BrokenArity | src/graph/view/face.rs:871-883 | With one `next` link cut, the circulation yields the arcs up to the cut, then stops. |
| Scenarios.HashRepeat | src/primitive/index.rs:96-105 | Indexing the same key twice issues index 0 both times and returns no vertex the second time. |
| Scenarios.CacheEviction | src/primitive/index.rs:157-211 | A capacity of zero is clamped to one. A key evicted from the cache gets a fresh index when it is seen again. |
| Scenarios.CacheHit | src/primitive/index.rs:197-201 | A cached key gets its stored index back and returns no vertex. |

## Left out

- `join`, `triangulate`, `extrude`, `get_or_insert_face` and `get_or_insert_face_with` are not modelled. They delegate to mutation code that is not part of this model.
- `centroid` and `normal` are not modelled. They are geometry over floating-point traits.
- The iterators over mutable storage that yield orphan views are left out, because they are a lifetime extension through `mem::transmute`. Over consistent storage they yield the same keys as the shared iterators, which are modelled. They differ on a dangling key. The vertex's face iterator over mutable storage panics through `unwrap` (src/graph/view/vertex.rs:571) on a dangling face key where the shared one stops (src/graph/view/vertex.rs:551-553). Its arc iterator over mutable storage also unwraps (src/graph/view/vertex.rs:492), but only on an arc the inner circulator has just found stored, so it yields the same arcs as the shared one (`FanStored`). The face's iterators over mutable storage look the key up and stop, like the shared ones.
- The `Bind`, `Reborrow`, `Deref`, `Clone`/`Copy` and `PhantomData` wrappers and the `Consistency` type parameter are type-level plumbing. They are not modelled; a view is its key together with its storage.
- Edge views and their key topology are not part of this model. The face key topology lists arc keys in place of each arc's `EdgeKeyTopology`.
- `HashMap` hashing itself is not modelled: the hash indexer's map is a Dafny `map`.
- `CollectWithIndexer` and `FromIndexer` are not modelled. They only forward to an implementation that is not part of this model.
- `index_vertices` and `flat_index_vertices` pass an identity key function, which is part of the vertex trait and not part of this model. Their `_with` forms are modelled with an arbitrary key function.
- The order in which `map_vertices_into` and `into_vertices` visit a polygon lives in the primitive topology module, which is not part of this model. The model visits vertices in sequence order.
- The generated test meshes (`UvSphere` and friends) are float-based. Scenarios use small symbolic meshes instead, so a vertex there has two incoming arcs, not the four of the generated sphere.
- The circulator constructors take the walk as a ghost witness.
  - The reachable forms (src/graph/view/face.rs:182-196) carry no consistency bound, so on a `next` chain that enters a cycle not through its start the source would circulate forever; `reachable_arity` would not return.
  - Such a chain admits no finite walk.
  - The model therefore does not cover it.
- FaceViews.RegionFace: requires the recorded face to be stored. The source relies on consistent storage there and would panic otherwise.
- FaceViews.IntoRegion: requires the face's representative arc to be stored, for the same reason.
- Indexing.HashIndexer.Index: the counter is an unbounded `nat`. The source's `usize` could in principle overflow.
- Indexing.LruIndexer.Index: the counter is an unbounded `nat`, for the same reason.
